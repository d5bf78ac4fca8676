/**
 How the portalmem driver presents a buffer to processors, drivers/portalmem/portalmem.c:
 pa_dma_buf_mmap maps it into a process, pa_dma_buf_begin_cpu_access lists its pages for vmap. Both
 follow the scatter list and must agree with the linear walk.
 */
module BufferMap {
  import opened Integers
  import opened Options
  import PortalMem
  import opened ScatterList

  /** One call of remap_pfn_range: `len` bytes at virtual `addr` go to physical `phys`. */
  datatype Remap = Remap(addr: nat, phys: nat, len: nat)

  function Min(x: nat, y: nat): nat { if x <= y then x else y }

  /** The calls made from chunk `from` on, with `offset` bytes still to be skipped. */
  function Remaps(es: seq<Entry>, from: nat, addr: nat, end: nat, offset: nat): seq<Remap>
    requires from <= |es| && addr <= end
    decreases |es| - from
  {
    if from == |es| then []
    else if offset >= es[from].len then Remaps(es, from + 1, addr, end, offset - es[from].len)
    else
      var len := Min(es[from].len - offset, end - addr);
      [Remap(addr, es[from].addr + offset / PAGE * PAGE, len)] +
      if addr + len >= end then [] else Remaps(es, from + 1, addr + len, end, 0)
  }

  /** The loop of pa_dma_buf_mmap. */
  method MapChunks(es: seq<Entry>, start: nat, end: nat, pgoff: nat) returns (maps: seq<Remap>)
    requires start < end
    ensures maps == Remaps(es, 0, start, end, pgoff * PAGE)
  {
    var addr: nat, offset: nat := start, pgoff * PAGE;
    maps := [];
    var i := 0;
    ghost var all := Remaps(es, 0, start, end, pgoff * PAGE);
    while i < |es|
      invariant 0 <= i <= |es| && addr < end
      invariant all == maps + Remaps(es, i, addr, end, offset)
    {
      var phys: nat, len: nat := es[i].addr, es[i].len;
      var remainder: nat := end - addr;
      i := i + 1;
      if offset >= len {
        offset := offset - len;
        continue;
      } else if offset != 0 {
        phys := phys + offset / PAGE * PAGE;
        len := len - offset;
        offset := 0;
      }
      len := Min(len, remainder);
      maps := maps + [Remap(addr, phys, len)];
      addr := addr + len;
      if addr >= end {
        break;
      }
    }
  }

  /** pa_dma_buf_mmap: nothing outside the range is mapped, and as many bytes inside it as the buffer has for it. */
  method PaDmaBufMmap(es: seq<Entry>, start: nat, end: nat, pgoff: nat) returns (maps: seq<Remap>)
    requires start < end
    ensures maps == Remaps(es, 0, start, end, pgoff * PAGE)
    ensures forall x: nat :: x < start || end <= x ==> MapAt(maps, x) == None
    ensures MappedBytes(maps) == Min(end - start, Left(Total(es), pgoff * PAGE))
  {
    maps := MapChunks(es, start, end, pgoff);
    MmapStaysInside(es, start, end, pgoff);
  }

  /** Where the mappings send a virtual address. */
  function MapAt(maps: seq<Remap>, x: nat): Option<nat> {
    if maps == [] then None
    else if maps[0].addr <= x < maps[0].addr + maps[0].len then Some(maps[0].phys + (x - maps[0].addr))
    else MapAt(maps[1..], x)
  }

  /** The mappings lie end to end from `addr`. */
  predicate Chained(maps: seq<Remap>, addr: nat) {
    maps == [] || (maps[0].addr == addr && maps[0].len > 0 && Chained(maps[1..], addr + maps[0].len))
  }

  lemma {:induction false} RemapsChained(es: seq<Entry>, from: nat, addr: nat, end: nat, offset: nat)
    requires from <= |es| && addr < end
    ensures Chained(Remaps(es, from, addr, end, offset), addr)
    decreases |es| - from
  {
    if from < |es| {
      if offset >= es[from].len {
        RemapsChained(es, from + 1, addr, end, offset - es[from].len);
      } else {
        var len := Min(es[from].len - offset, end - addr);
        if addr + len < end {
          RemapsChained(es, from + 1, addr + len, end, 0);
        }
      }
    }
  }

  /** Buffer offset `b` goes where the walk takes it, or nowhere past the end. */
  predicate Follows(es: seq<Entry>, b: nat, target: Option<nat>) {
    target == if b < Total(es) then Some(PhysAddr(es, b)) else None
  }

  lemma {:induction false} FirstRemap(es: seq<Entry>, from: nat, addr: nat, end: nat, offset: nat, x: nat, b: nat)
    requires from < |es| && addr <= x < end && offset % PAGE == 0 && offset < es[from].len
    requires x < addr + Min(es[from].len - offset, end - addr) && b == Total(es[..from]) + offset + (x - addr)
    ensures Follows(es, b, MapAt(Remaps(es, from, addr, end, offset), x))
  {
    PhysAddrAt(es, b, from, offset + (x - addr));
    assert Remaps(es, from, addr, end, offset)[0]
        == Remap(addr, es[from].addr + offset, Min(es[from].len - offset, end - addr));
  }

  lemma {:induction false} LaterRemap(es: seq<Entry>, from: nat, addr: nat, end: nat, offset: nat, x: nat, next: nat)
    requires from < |es| && addr <= x < end && offset < es[from].len && next == addr + (es[from].len - offset) <= x
    ensures MapAt(Remaps(es, from, addr, end, offset), x) == MapAt(Remaps(es, from + 1, next, end, 0), x)
  {
    assert Remaps(es, from, addr, end, offset)[1..] == Remaps(es, from + 1, next, end, 0);
  }

  lemma {:induction false} SkippedChunk(es: seq<Entry>, from: nat, addr: nat, end: nat, offset: nat, x: nat)
    requires from < |es| && addr < end && offset >= es[from].len
    ensures MapAt(Remaps(es, from, addr, end, offset), x)
            == MapAt(Remaps(es, from + 1, addr, end, offset - es[from].len), x)
  {
  }

  lemma {:induction false} PastEnd(es: seq<Entry>, addr: nat, end: nat, offset: nat, x: nat, b: nat)
    requires addr <= end && b >= Total(es)
    ensures Follows(es, b, MapAt(Remaps(es, |es|, addr, end, offset), x))
  {
  }

  lemma {:induction false} SkippedFollows(es: seq<Entry>, from: nat, addr: nat, end: nat, offset: nat, x: nat, b: nat)
    requires from < |es| && addr <= x < end && offset % PAGE == 0 && AllSupported(es)
    requires b == Total(es[..from]) + offset + (x - addr) && offset >= es[from].len
    ensures Follows(es, b, MapAt(Remaps(es, from, addr, end, offset), x))
    decreases |es| - from, 0
  {
    TotalPrefix(es, from);
    RemapsFollowWalk(es, from + 1, addr, end, offset - es[from].len, x, b);
    SkippedChunk(es, from, addr, end, offset, x);
  }

  lemma {:induction false} LaterFollows(es: seq<Entry>, from: nat, addr: nat, end: nat, offset: nat, x: nat, b: nat,
                                        next: nat)
    requires from < |es| && addr <= x < end && AllSupported(es)
    requires offset < es[from].len && next == addr + (es[from].len - offset) <= x
    requires b == Total(es[..from + 1]) + (x - next)
    ensures Follows(es, b, MapAt(Remaps(es, from, addr, end, offset), x))
    decreases |es| - from, 0
  {
    RemapsFollowWalk(es, from + 1, next, end, 0, x, b);
    LaterRemap(es, from, addr, end, offset, x, next);
  }

  lemma {:induction false} RemapsFollowWalk(es: seq<Entry>, from: nat, addr: nat, end: nat, offset: nat, x: nat, b: nat)
    requires from <= |es| && addr <= x < end && offset % PAGE == 0 && AllSupported(es)
    requires b == Total(es[..from]) + offset + (x - addr)
    ensures Follows(es, b, MapAt(Remaps(es, from, addr, end, offset), x))
    decreases |es| - from, 1
  {
    if from == |es| {
      assert es[..from] == es;
      PastEnd(es, addr, end, offset, x, b);
    } else if offset >= es[from].len {
      SkippedFollows(es, from, addr, end, offset, x, b);
    } else if x < addr + (es[from].len - offset) {
      FirstRemap(es, from, addr, end, offset, x, b);
    } else {
      TotalPrefix(es, from);
      LaterFollows(es, from, addr, end, offset, x, b, addr + (es[from].len - offset));
    }
  }

  /** For every range and page offset: the mappings are disjoint and contiguous from the start of the
      range, and each virtual address goes where the linear walk takes the same offset of the buffer,
      or nowhere when the buffer has ended. */
  lemma {:induction false} MmapFollowsWalk(es: seq<Entry>, start: nat, end: nat, pgoff: nat, x: nat)
    requires AllSupported(es) && start <= x < end
    ensures var maps := Remaps(es, 0, start, end, pgoff * PAGE); var off := pgoff * PAGE + (x - start);
            && Chained(maps, start)
            && Follows(es, off, MapAt(maps, x))
  {
    RemapsChained(es, 0, start, end, pgoff * PAGE);
    assert es[..0] == [];
    RemapsFollowWalk(es, 0, start, end, pgoff * PAGE, x, pgoff * PAGE + (x - start));
  }

  /** Nothing is mapped outside the range. */
  lemma {:induction false} NothingOutside(es: seq<Entry>, from: nat, addr: nat, end: nat, offset: nat, x: nat)
    requires from <= |es| && addr <= end && (x < addr || end <= x)
    ensures MapAt(Remaps(es, from, addr, end, offset), x) == None
    decreases |es| - from
  {
    if from < |es| {
      if offset >= es[from].len {
        NothingOutside(es, from + 1, addr, end, offset - es[from].len, x);
      } else {
        var len := Min(es[from].len - offset, end - addr);
        if addr + len < end {
          NothingOutside(es, from + 1, addr + len, end, 0, x);
        }
        FirstThenRest(es, from, addr, end, offset, len);
      }
    }
  }

  lemma {:induction false} FirstThenRest(es: seq<Entry>, from: nat, addr: nat, end: nat, offset: nat, len: nat)
    requires from < |es| && addr <= end && offset < es[from].len && len == Min(es[from].len - offset, end - addr)
    ensures var maps := Remaps(es, from, addr, end, offset);
            && maps != [] && maps[0].addr == addr && maps[0].len == len
            && maps[1..] == if addr + len >= end then [] else Remaps(es, from + 1, addr + len, end, 0)
  {
  }

  function MappedBytes(maps: seq<Remap>): nat {
    if maps == [] then 0 else maps[0].len + MappedBytes(maps[1..])
  }

  /** What is left of `size` bytes after the first `skip`. */
  function Left(size: nat, skip: nat): nat { if skip <= size then size - skip else 0 }

  /** The range is filled as far as the buffer goes. */
  lemma {:induction false} FilledLength(es: seq<Entry>, from: nat, addr: nat, end: nat, offset: nat, rest: nat)
    requires from <= |es| && addr <= end && rest == Total(es[from..])
    ensures MappedBytes(Remaps(es, from, addr, end, offset)) == Min(end - addr, Left(rest, offset))
    decreases |es| - from
  {
    if from == |es| {
      assert es[from..] == [];
    } else {
      var size := es[from].len;
      SuffixTotal(es, from);
      if offset >= size {
        FilledLength(es, from + 1, addr, end, offset - size, rest - size);
      } else {
        var len := Min(size - offset, end - addr);
        FirstThenRest(es, from, addr, end, offset, len);
        if addr + len < end {
          FilledLength(es, from + 1, addr + len, end, 0, rest - size);
        }
      }
    }
  }

  lemma {:induction false} SuffixTotal(es: seq<Entry>, from: nat)
    requires from < |es|
    ensures Total(es[from..]) == es[from].len + Total(es[from + 1..])
  {
    TotalPrefix(es, from);
    TotalPrefix(es, from + 1);
  }

  /** For every range and page offset: nothing is mapped outside the range, and inside it as many bytes as it has, or as
      the buffer still has from that offset on. */
  lemma {:induction false} MmapStaysInside(es: seq<Entry>, start: nat, end: nat, pgoff: nat)
    requires start <= end
    ensures var maps := Remaps(es, 0, start, end, pgoff * PAGE);
            && (forall x: nat :: x < start || end <= x ==> MapAt(maps, x) == None)
            && MappedBytes(maps) == Min(end - start, Left(Total(es), pgoff * PAGE))
  {
    forall x: nat | x < start || end <= x
      ensures MapAt(Remaps(es, 0, start, end, pgoff * PAGE), x) == None
    {
      NothingOutside(es, 0, start, end, pgoff * PAGE, x);
    }
    assert es[0..] == es;
    FilledLength(es, 0, start, end, pgoff * PAGE, Total(es));
  }

  // ----- Agreement with custom_vma_access -----

  lemma {:induction false} PhysAddrInjective(es: seq<Entry>, off: nat, off': nat)
    requires Disjoint(es) && off < Total(es) && off' < Total(es)
    requires PhysAddr(es, off) == PhysAddr(es, off')
    ensures off == off'
  {
    var i, o := Located(es, off);
    var i', o' := Located(es, off');
  }

  /** custom_vma_access reaches the byte that the mapping shows at `x`. */
  predicate DebuggerAgrees(es: seq<Entry>, start: nat, end: nat, pgoff: nat, x: nat)
    requires es != [] && start <= x < end
  {
    var shown := MapAt(Remaps(es, 0, start, end, pgoff * PAGE), x);
    shown.Some? && Reached(es, x - start) == shown.value
  }

  /** The bytes the mapping shows and custom_vma_access reaches, as offsets in the buffer. */
  lemma {:induction false} DebuggerAgreesAt(es: seq<Entry>, start: nat, end: nat, pgoff: nat, x: nat)
    requires es != [] && AllSupported(es) && Disjoint(es) && start <= x < end
    requires (x - start) % 0x1_0000_0000 < Total(es)
    ensures var off := pgoff * PAGE + (x - start);
            DebuggerAgrees(es, start, end, pgoff, x) <==> off < Total(es) && off == (x - start) % 0x1_0000_0000
  {
    var off, u := pgoff * PAGE + (x - start), (x - start) % 0x1_0000_0000;
    MmapFollowsWalk(es, start, end, pgoff, x);
    if off < Total(es) && PhysAddr(es, off) == PhysAddr(es, u) {
      PhysAddrInjective(es, off, u);
    }
  }

  /** custom_vma_access leaves the page offset of the mapping out of account, and counts in 32 bits: it reaches the
      byte that is mapped at every address of a mapping exactly when that offset is zero, the mapping is no longer
      than 2^32 bytes and the buffer does not end before it. */
  lemma {:induction false} DebuggerSeesMapping(es: seq<Entry>, start: nat, end: nat, pgoff: nat)
    requires es != [] && AllSupported(es) && Disjoint(es) && start < end
    ensures (forall x :: start <= x < end ==> DebuggerAgrees(es, start, end, pgoff, x))
            <==> pgoff == 0 && end - start <= 0x1_0000_0000 && end - start <= Total(es)
  {
    NotEmpty(es);
    if pgoff == 0 && end - start <= 0x1_0000_0000 && end - start <= Total(es) {
      forall x | start <= x < end
        ensures DebuggerAgrees(es, start, end, pgoff, x)
      {
        DebuggerAgreesAt(es, start, end, pgoff, x);
      }
    } else if pgoff != 0 {
      DebuggerAgreesAt(es, start, end, pgoff, start);
    } else if end - start > Total(es) {
      MmapFollowsWalk(es, start, end, pgoff, start + Total(es));
      assert !DebuggerAgrees(es, start, end, pgoff, start + Total(es));
    } else {
      DebuggerAgreesAt(es, start, end, pgoff, start + 0x1_0000_0000);
    }
  }

  lemma {:induction false} NotEmpty(es: seq<Entry>)
    requires es != [] && AllSupported(es)
    ensures Total(es) > 0
  {
  }

  /** So for every buffer that the driver creates from memory that the page allocator does not give twice. */
  lemma {:induction false} CreatedMappingSeen(alloc: PortalMem.Oracle, len: nat, start: nat, end: nat, pgoff: nat)
    requires len < 0x1_0000_0000_0000_0000 && PortalMem.Created(alloc, len, true).Some?
    requires PortalMem.GivesOnce(alloc) && start < end
    ensures var es := PortalMem.Created(alloc, len, true).value;
            && es != []
            && ((forall x :: start <= x < end ==> DebuggerAgrees(es, start, end, pgoff, x))
                <==> pgoff == 0 && end - start <= 0x1_0000_0000 && end - start <= Total(es))
  {
    PortalMem.CreatedBuffer(alloc, len, true);
    PortalMem.CreatedDisjoint(alloc, len, true);
    DebuggerSeesMapping(PortalMem.Created(alloc, len, true).value, start, end, pgoff);
  }

  // ----- Copies of several bytes -----

  /** Chunk after chunk from `i` to `j`, each starts where the one before ends. */
  predicate Adjoining(es: seq<Entry>, i: nat, j: nat) {
    j < |es| && forall c :: i <= c < j ==> es[c + 1].addr == es[c].addr + es[c].len
  }

  lemma {:induction false} AdjoiningAddr(es: seq<Entry>, i: nat, j: nat)
    requires i <= j && Adjoining(es, i, j)
    ensures es[j].addr + Total(es[..i]) == es[i].addr + Total(es[..j])
    decreases j
  {
    if i < j {
      AdjoiningAddr(es, i, j - 1);
      TotalPrefix(es, j - 1);
    }
  }

  lemma {:induction false} ChunkOrder(es: seq<Entry>, b: nat, i: nat, o: nat, b': nat, j: nat, o': nat)
    requires At(es, b, i, o) && At(es, b', j, o') && b <= b'
    ensures i <= j
  {
    if j < i {
      TotalPrefix(es, j);
      TotalMonotone(es, j + 1, i);
    }
  }

  /** The bytes from `b` to `b'` of a buffer lie one after the other in memory exactly when the chunks they lie in
      adjoin. */
  lemma {:induction false} RunIff(es: seq<Entry>, b: nat, i: nat, o: nat, b': nat, j: nat, o': nat)
    requires AllSupported(es) && At(es, b, i, o) && At(es, b', j, o') && b <= b' < Total(es)
    ensures (forall k :: b <= k <= b' ==> PhysAddr(es, k) == PhysAddr(es, b) + (k - b)) <==> Adjoining(es, i, j)
  {
    ChunkOrder(es, b, i, o, b', j, o');
    PhysAddrAt(es, b, i, o);
    if Adjoining(es, i, j) {
      forall k | b <= k <= b'
        ensures PhysAddr(es, k) == PhysAddr(es, b) + (k - b)
      {
        RunByte(es, b, i, o, b', j, o', k);
      }
    } else {
      var c :| i <= c < j && es[c + 1].addr != es[c].addr + es[c].len;
      Boundary(es, b, i, o, b', j, o', c);
    }
  }

  lemma {:induction false} RunByte(es: seq<Entry>, b: nat, i: nat, o: nat, b': nat, j: nat, o': nat, k: nat)
    requires At(es, b, i, o) && At(es, b', j, o') && b <= k <= b' < Total(es) && Adjoining(es, i, j)
    ensures PhysAddr(es, k) == PhysAddr(es, b) + (k - b)
  {
    var c, p := Located(es, k);
    ChunkOrder(es, b, i, o, k, c, p);
    ChunkOrder(es, k, c, p, b', j, o');
    PhysAddrAt(es, b, i, o);
    AdjoiningAddr(es, i, c);
  }

  /** The two bytes on either side of the end of chunk `c`. */
  lemma {:induction false} Boundary(es: seq<Entry>, b: nat, i: nat, o: nat, b': nat, j: nat, o': nat, c: nat)
    requires AllSupported(es) && At(es, b, i, o) && At(es, b', j, o') && b <= b' < Total(es) && i <= c < j
    requires es[c + 1].addr != es[c].addr + es[c].len
    ensures exists k :: b <= k <= b' && PhysAddr(es, k) != PhysAddr(es, b) + (k - b)
  {
    var next := Total(es[..c + 1]);
    TotalPrefix(es, i);
    TotalPrefix(es, c);
    TotalMonotone(es, i + 1, c + 1);
    TotalMonotone(es, c + 1, j);
    PhysAddrAt(es, next - 1, c, es[c].len - 1);
    PhysAddrAt(es, next, c + 1, 0);
    assert b <= next - 1 && next <= b';
    if PhysAddr(es, next - 1) == PhysAddr(es, b) + (next - 1 - b) {
      assert PhysAddr(es, next) != PhysAddr(es, b) + (next - b);
    }
  }

  /** One call of custom_vma_access copies bytes in a row from the one it reaches for `x`; the mapping shows the same
      byte at `y`. */
  predicate SameByte(es: seq<Entry>, start: nat, end: nat, x: nat, y: nat)
    requires es != [] && start <= x <= y < end
  {
    var shown := MapAt(Remaps(es, 0, start, end, 0), y);
    shown.Some? && shown.value == Reached(es, x - start) + (y - x)
  }

  predicate CopyAgrees(es: seq<Entry>, start: nat, end: nat, x: nat, len: nat)
    requires es != [] && start <= x && x + len <= end
  {
    forall y :: x <= y < x + len ==> SameByte(es, start, end, x, y)
  }

  lemma {:induction false} SameByteAt(es: seq<Entry>, start: nat, end: nat, x: nat, y: nat)
    requires es != [] && AllSupported(es) && start <= x <= y < end
    requires end - start <= 0x1_0000_0000 && end - start <= Total(es)
    ensures SameByte(es, start, end, x, y)
            <==> PhysAddr(es, y - start) == PhysAddr(es, x - start) + ((y - start) - (x - start))
  {
    MmapFollowsWalk(es, start, end, 0, y);
  }

  /** Where single bytes agree, a copy of several agrees exactly when the chunks it touches adjoin in memory; so a copy
      inside one chunk always does. */
  lemma {:induction false} CopySeesMapping(es: seq<Entry>, start: nat, end: nat, x: nat, len: nat,
                                           i: nat, o: nat, j: nat, o': nat)
    requires es != [] && AllSupported(es) && start <= x && 0 < len && x + len <= end
    requires end - start <= 0x1_0000_0000 && end - start <= Total(es)
    requires At(es, x - start, i, o) && At(es, x - start + len - 1, j, o')
    ensures CopyAgrees(es, start, end, x, len) <==> Adjoining(es, i, j)
    ensures i == j ==> CopyAgrees(es, start, end, x, len)
  {
    var b := x - start;
    RunIff(es, b, i, o, b + len - 1, j, o');
    if CopyAgrees(es, start, end, x, len) {
      forall k | b <= k <= b + len - 1
        ensures PhysAddr(es, k) == PhysAddr(es, b) + (k - b)
      {
        assert SameByte(es, start, end, x, start + k);
        SameByteAt(es, start, end, x, start + k);
      }
    }
    if Adjoining(es, i, j) {
      forall y | x <= y < x + len
        ensures SameByte(es, start, end, x, y)
      {
        SameByteAt(es, start, end, x, y);
      }
    }
  }

  // ----- The page list for vmap -----

  lemma {:induction false} WholePages(es: seq<Entry>, i: nat)
    requires AllSupported(es) && i <= |es|
    ensures Total(es[..i]) % PAGE == 0 && Total(es[..i]) >= i * PAGE
    decreases i
  {
    if i > 0 {
      WholePages(es, i - 1);
      TotalPrefix(es, i - 1);
    }
  }

  /** Page `j` of chunk `i` is page `Total(es[..i]) / PAGE + j` of the buffer. */
  lemma {:induction false} PageOfChunk(es: seq<Entry>, i: nat, j: nat)
    requires AllSupported(es) && i < |es| && j < es[i].len / PAGE
    ensures var k := Total(es[..i]) / PAGE + j;
            k < Total(es) / PAGE && k * PAGE < Total(es) && PhysAddr(es, k * PAGE) == es[i].addr + j * PAGE
  {
    WholePages(es, i);
    WholePages(es, |es|);
    assert es[..|es|] == es;
    PhysAddrAt(es, Total(es[..i]) + j * PAGE, i, j * PAGE);
  }

  /** The inner loop: one chunk's pages. */
  method ListChunk(pages: array<nat>, tmp: nat, addr: nat, count: nat)
    requires tmp + count <= pages.Length
    modifies pages
    ensures forall j :: 0 <= j < count ==> pages[tmp + j] == addr + j * PAGE
    ensures forall k :: 0 <= k < tmp || tmp + count <= k < pages.Length ==> pages[k] == old(pages[k])
  {
    var page := addr;
    for j := 0 to count
      invariant page == addr + j * PAGE
      invariant forall j' :: 0 <= j' < j ==> pages[tmp + j'] == addr + j' * PAGE
      invariant forall k :: 0 <= k < tmp || tmp + count <= k < pages.Length ==> pages[k] == old(pages[k])
    {
      pages[tmp + j] := page;
      page := page + PAGE;
    }
  }

  predicate Listed(es: seq<Entry>, k: nat, page: nat) {
    k * PAGE < Total(es) && page == PhysAddr(es, k * PAGE)
  }

  lemma {:induction false} ChunkListed(es: seq<Entry>, i: nat, tmp: nat, k: nat)
    requires AllSupported(es) && i < |es| && tmp == Total(es[..i]) / PAGE
    requires tmp <= k < tmp + es[i].len / PAGE
    ensures Listed(es, k, es[i].addr + (k - tmp) * PAGE)
  {
    PageOfChunk(es, i, k - tmp);
  }

  lemma {:induction false} ChunkFits(es: seq<Entry>, i: nat)
    requires AllSupported(es) && i < |es|
    ensures Total(es[..i]) / PAGE + es[i].len / PAGE == Total(es[..i + 1]) / PAGE <= Total(es) / PAGE
    ensures i < Total(es) / PAGE
  {
    WholePages(es, i);
    WholePages(es, i + 1);
    TotalPrefix(es, i);
    TotalMonotone(es, i + 1, |es|);
    assert es[..|es|] == es;
  }

  /** pa_dma_buf_begin_cpu_access: the array given to vmap has one entry for each page of the buffer, in the order of
      the linear walk, and its BUG_ON never fires. The code counts pages in an int: no array exactly when that does not
      hold their number, at 8 TB. */
  method PageList(es: seq<Entry>) returns (r: Option<array<nat>>)
    requires AllSupported(es)
    ensures r.Some? <==> Total(es) / PAGE < 0x8000_0000
    ensures r.Some? ==> r.value.Length == Total(es) / PAGE
    ensures r.Some? ==> forall k :: 0 <= k < r.value.Length ==> Listed(es, k, r.value[k])
  {
    var npages := ToInt32(Total(es) / PAGE);
    ToInt32Exact(Total(es) / PAGE);
    if npages != Total(es) / PAGE {
      return None;
    }
    var pages := new nat[npages];
    var tmp := 0;
    assert es[..0] == [] && es[..|es|] == es;
    for i := 0 to |es|
      invariant tmp == Total(es[..i]) / PAGE <= npages
      invariant forall k :: 0 <= k < tmp ==> Listed(es, k, pages[k])
    {
      ChunkFits(es, i);
      assert i < npages;  // BUG_ON(i >= npages)
      var count := es[i].len / PAGE;
      ListChunk(pages, tmp, es[i].addr, count);
      forall k | tmp <= k < tmp + count
        ensures Listed(es, k, pages[k])
      {
        ChunkListed(es, i, tmp, k);
        assert pages[k] == pages[tmp + (k - tmp)];
      }
      tmp := tmp + count;
    }
    return Some(pages);
  }
}
