/**
 Scatter lists: the chunks of physical memory that back a DMA buffer, and the linear walk of
 custom_vma_access (drivers/portalmem/portalmem.c) that is the meaning of an offset in the buffer.
 */
module ScatterList {
  import opened Integers

  const PAGE := 0x1000
  const SIZE_1M := 0x10_0000
  const SIZE_64K := 0x1_0000
  const SIZE_4K := 0x1000

  /** A chunk: physical address and length. */
  datatype Entry = Entry(addr: nat, len: nat)

  predicate Supported(len: nat) {
    len == SIZE_1M || len == SIZE_64K || len == SIZE_4K
  }

  /** `x >> shift` for the shift of a chunk length. */
  function PageNumber(x: nat, len: nat): nat {
    if len == SIZE_1M then x / SIZE_1M else if len == SIZE_64K then x / SIZE_64K else x / SIZE_4K
  }

  /** `x & ((1 << shift) - 1)` for the shift of a chunk length. */
  function InPage(x: nat, len: nat): nat {
    if len == SIZE_1M then x % SIZE_1M else if len == SIZE_64K then x % SIZE_64K else x % SIZE_4K
  }

  predicate AllSupported(es: seq<Entry>) {
    forall i :: 0 <= i < |es| ==> Supported(es[i].len)
  }

  predicate NonIncreasing(es: seq<Entry>) {
    forall i, j :: 0 <= i < j < |es| ==> es[i].len >= es[j].len
  }

  /** Two chunks share no byte. */
  predicate Apart(e: Entry, e': Entry) {
    e.addr + e.len <= e'.addr || e'.addr + e'.len <= e.addr
  }

  /** No two chunks share a byte. */
  predicate Disjoint(es: seq<Entry>) {
    forall i, j :: 0 <= i < j < |es| ==> Apart(es[i], es[j])
  }

  function Total(es: seq<Entry>): nat {
    if es == [] then 0 else Total(es[..|es| - 1]) + es[|es| - 1].len
  }

  lemma {:induction false} TotalConcat(a: seq<Entry>, b: seq<Entry>)
    ensures Total(a + b) == Total(a) + Total(b)
    decreases |b|
  {
    if b == [] {
      assert a + b == a;
    } else {
      assert (a + b)[..|a + b| - 1] == a + b[..|b| - 1];
      TotalConcat(a, b[..|b| - 1]);
    }
  }

  lemma {:induction false} TotalPrefix(es: seq<Entry>, i: nat)
    requires i <= |es|
    ensures Total(es[..i]) + Total(es[i..]) == Total(es)
    ensures i < |es| ==> Total(es[..i + 1]) == Total(es[..i]) + es[i].len
  {
    TotalConcat(es[..i], es[i..]);
    assert es[..i] + es[i..] == es;
    if i < |es| {
      assert es[..i + 1][..i] == es[..i];
    }
  }

  lemma {:induction false} TotalMonotone(es: seq<Entry>, i: nat, j: nat)
    requires i <= j <= |es|
    ensures Total(es[..i]) <= Total(es[..j])
    decreases j - i
  {
    if i < j {
      TotalMonotone(es, i, j - 1);
      TotalPrefix(es, j - 1);
    }
  }

  /** Offset `off` lies in chunk `i`, `o` bytes from its start. */
  predicate At(es: seq<Entry>, off: nat, i: nat, o: nat) {
    i < |es| && o < es[i].len && Total(es[..i]) + o == off
  }

  /** An offset lies in one place only. */
  lemma {:induction false} AtUnique(es: seq<Entry>, off: nat, i: nat, o: nat, i': nat, o': nat)
    requires At(es, off, i, o) && At(es, off, i', o')
    ensures i == i' && o == o'
  {
    TotalPrefix(es, i);
    TotalPrefix(es, i');
    if i < i' {
      TotalMonotone(es, i + 1, i');
    } else if i' < i {
      TotalMonotone(es, i' + 1, i);
    }
  }

  /** The linear walk: chunk index and offset in the chunk. */
  function Walk(es: seq<Entry>, from: nat, off: nat): (r: (nat, nat))
    requires from < |es|
    ensures from <= r.0 < |es|
    decreases |es| - from
  {
    if off < es[from].len || from + 1 == |es| then (from, off)
    else Walk(es, from + 1, off - es[from].len)
  }

  /** The walk finds where an offset inside the buffer lies. */
  lemma {:induction false} WalkFinds(es: seq<Entry>, from: nat, off: nat)
    requires from < |es| && off < Total(es[from..])
    ensures var (i, o) := Walk(es, from, off); At(es, Total(es[..from]) + off, i, o)
    decreases |es| - from
  {
    TotalPrefix(es, from);
    assert es[from..] == [es[from]] + es[from + 1..];
    TotalConcat([es[from]], es[from + 1..]);
    assert Total([es[from]]) == Total([]) + es[from].len;
    if off >= es[from].len {
      WalkFinds(es, from + 1, off - es[from].len);
    }
  }

  /** The physical address of an offset. */
  function PhysAddr(es: seq<Entry>, off: nat): nat
    requires off < Total(es)
  {
    var (i, o) := Walk(es, 0, off);
    es[i].addr + o
  }

  lemma {:induction false} PhysAddrAt(es: seq<Entry>, off: nat, i: nat, o: nat)
    requires At(es, off, i, o)
    ensures off < Total(es) && PhysAddr(es, off) == es[i].addr + o
    ensures Walk(es, 0, off) == (i, o)
  {
    TotalPrefix(es, i);
    TotalMonotone(es, i + 1, |es|);
    assert es[..|es|] == es && es[0..] == es && es[..0] == [];
    WalkFinds(es, 0, off);
    var (i', o') := Walk(es, 0, off);
    AtUnique(es, off, i, o, i', o');
  }

  /** Every offset inside the buffer lies somewhere. */
  lemma {:induction false} Located(es: seq<Entry>, off: nat) returns (i: nat, o: nat)
    requires off < Total(es)
    ensures At(es, off, i, o) && PhysAddr(es, off) == es[i].addr + o && Walk(es, 0, off) == (i, o)
  {
    assert es[0..] == es && es[..0] == [];
    WalkFinds(es, 0, off);
    i, o := Walk(es, 0, off).0, Walk(es, 0, off).1;
  }

  /** The byte custom_vma_access reaches `d` bytes into a mapping: it keeps `d` in an int and compares it as an
      unsigned int, and past the end of the buffer it goes on from the last chunk, back or forth. */
  function Reached(es: seq<Entry>, d: nat): int
    requires es != []
  {
    var u := d % 0x1_0000_0000;
    if u < Total(es) then PhysAddr(es, u) else es[|es| - 1].addr + ToInt32(u - Total(es))
  }

  /** custom_vma_access: the address from which it copies `len` bytes, or to which. */
  method CustomVmaAccess(es: seq<Entry>, start: nat, addr: nat) returns (maddr: int)
    requires es != [] && AllSupported(es) && start <= addr
    ensures maddr == Reached(es, addr - start)
  {
    var offset: int := ToInt32(addr - start);
    ghost var u: nat := (addr - start) % 0x1_0000_0000;
    ghost var rest: nat := u;
    ToInt32Wraps(addr - start);
    maddr := es[0].addr;
    var i := 0;
    assert es[..0] == [] && es[..|es|] == es;
    while i < |es|
      invariant 0 <= i <= |es|
      invariant i > 0 ==> maddr == es[i - 1].addr
      invariant u == Total(es[..i]) + rest && offset == ToInt32(rest)
    {
      maddr := es[i].addr;
      Unsigned(rest);
      if offset % 0x1_0000_0000 < es[i].len {
        PhysAddrAt(es, u, i, rest);
        return maddr + offset;
      }
      TotalPrefix(es, i);
      ToInt32Sub(rest, es[i].len);
      rest := rest - es[i].len;
      offset := ToInt32(offset - es[i].len);
      i := i + 1;
    }
    maddr := maddr + offset;
  }

  /** Just past the end of the buffer the access goes through the last chunk a second time. */
  lemma {:induction false} PastEndRepeats(es: seq<Entry>, d: nat)
    requires es != [] && AllSupported(es)
    requires Total(es) <= d % 0x1_0000_0000 < Total(es) + es[|es| - 1].len
    ensures es[|es| - 1].len <= d % 0x1_0000_0000
    ensures Reached(es, d) == PhysAddr(es, d % 0x1_0000_0000 - es[|es| - 1].len)
  {
    var n := |es| - 1;
    var u := d % 0x1_0000_0000;
    assert es[..|es|] == es;
    TotalPrefix(es, n);
    PhysAddrAt(es, u - es[n].len, n, u - Total(es));
  }

  // ----- Non-increasing lists -----

  function Count(es: seq<Entry>, len: nat): nat {
    if es == [] then 0 else Count(es[..|es| - 1], len) + if es[|es| - 1].len == len then 1 else 0
  }

  /** Where the classes of a non-increasing list lie. */
  predicate Sorted3(es: seq<Entry>, n8: nat, n4: nat, n0: nat) {
    && |es| == n8 + n4 + n0
    && (forall i :: 0 <= i < n8 ==> es[i].len == SIZE_1M)
    && (forall i :: n8 <= i < n8 + n4 ==> es[i].len == SIZE_64K)
    && (forall i :: n8 + n4 <= i < |es| ==> es[i].len == SIZE_4K)
  }

  lemma {:induction false} NonIncreasingClasses(es: seq<Entry>)
    requires AllSupported(es) && NonIncreasing(es)
    ensures Sorted3(es, Count(es, SIZE_1M), Count(es, SIZE_64K), Count(es, SIZE_4K))
    decreases |es|
  {
    if es != [] {
      var front := es[..|es| - 1];
      NonIncreasingClasses(front);
      assert forall i :: 0 <= i < |front| ==> front[i] == es[i];
      var n8, n4, n0 := Count(front, SIZE_1M), Count(front, SIZE_64K), Count(front, SIZE_4K);
      if n0 > 0 {
        assert front[n8 + n4].len == SIZE_4K;
      }
      if n4 > 0 {
        assert front[n8].len == SIZE_64K;
      }
    }
  }

  lemma {:induction false} ClassTotals(es: seq<Entry>, n8: nat, n4: nat, n0: nat, i: nat)
    requires Sorted3(es, n8, n4, n0) && i <= |es|
    ensures i <= n8 ==> Total(es[..i]) == i * SIZE_1M
    ensures n8 <= i <= n8 + n4 ==> Total(es[..i]) == n8 * SIZE_1M + (i - n8) * SIZE_64K
    ensures n8 + n4 <= i ==> Total(es[..i]) == n8 * SIZE_1M + n4 * SIZE_64K + (i - n8 - n4) * SIZE_4K
    decreases i
  {
    if i > 0 {
      ClassTotals(es, n8, n4, n0, i - 1);
      TotalPrefix(es, i - 1);
    }
  }

  lemma {:induction false} Multiple(k: nat)
    ensures InPage(k * SIZE_1M, SIZE_1M) == 0
    ensures InPage(k * SIZE_64K, SIZE_64K) == 0
    ensures InPage(k * SIZE_4K, SIZE_4K) == 0
  {
  }

  /** In a non-increasing list every chunk starts at a multiple of its own length. */
  lemma {:induction false} StartsAligned(es: seq<Entry>, i: nat)
    requires AllSupported(es) && NonIncreasing(es) && i < |es|
    ensures InPage(Total(es[..i]), es[i].len) == 0
  {
    NonIncreasingClasses(es);
    var n8, n4, n0 := Count(es, SIZE_1M), Count(es, SIZE_64K), Count(es, SIZE_4K);
    ClassTotals(es, n8, n4, n0, i);
    var k := if i < n8 then i else if i < n8 + n4 then n8 * 16 + (i - n8) else (n8 * 16 + n4) * 16 + (i - n8 - n4);
    Multiple(k);
  }
}
