/**
 The command ring of examples/ring/testring.cpp: software copies 64-byte commands into a ring that
 hardware reads and acknowledges, and keeps a cached count of free bytes that it refreshes only every
 quarter of the way round.

 A run interleaves the steps of ring_send with acknowledgements by the hardware.
 */
module CommandRing {

  const ITEM := 64

  /** `x % size` for `0 <= x < 2 * size`. */
  function ModSize(x: nat, size: nat): nat {
    if x < size then x else if x < 2 * size then x - size else 0
  }

  lemma {:induction false} ModSizeIsRemainder(x: nat, size: nat)
    requires x < 2 * size
    ensures ModSize(x, size) == x % size
  {
    if x >= size {
      assert x / size == 1;
    }
  }

  /** The test of ring_send's loop; the ring is never so small that `q` is zero. */
  predicate Multiple(x: nat, q: nat) {
    q > 0 && x % q == 0
  }

  /** SWRing, with the ring's memory as a sequence of slots. */
  datatype Ring<Cmd> = Ring(base: seq<Cmd>, first: nat, last: nat, size: nat, cachedSpace: nat)

  /** Where ring_send is: outside, about to test its credit, waiting for the hardware's answer, holding that
      answer, or about to copy. */
  datatype Pc<Cmd> = Outside | Test(cmd: Cmd) | Asked(cmd: Cmd) | Told(cmd: Cmd) | Copy(cmd: Cmd)

  /** `hwLast` is the hardware's pointer. History: the commands copied so far, how many of them the hardware has
      acknowledged, how many it had when it was last asked, and when the credit was last computed. */
  datatype State<Cmd> = State(ring: Ring<Cmd>, pc: Pc<Cmd>, hwLast: nat,
                              cmds: seq<Cmd>, acked: nat, seen: nat, credited: nat)

  datatype Action<Cmd> = Send(cmd: Cmd) | SoftwareStep | HardwareAnswer | HardwareAck

  function Advance(p: nat, size: nat): nat {
    if p + ITEM == size then 0 else p + ITEM
  }

  /** ring_init. */
  function Init<Cmd>(base: seq<Cmd>): State<Cmd>
    requires base != []
  {
    var size := ITEM * |base|;
    State(Ring(base, 0, 0, size, size - ITEM), Outside, 0, [], 0, 0, 0)
  }

  /** The copy at the end of ring_send. */
  function Copied<Cmd>(r: Ring<Cmd>, cmd: Cmd): Ring<Cmd> {
    r.(base := if r.first / ITEM < |r.base| then r.base[r.first / ITEM := cmd] else r.base,
       first := Advance(r.first, r.size),
       cachedSpace := if r.cachedSpace >= ITEM then r.cachedSpace - ITEM else r.cachedSpace + 0x1_0000_0000 - ITEM)
  }

  function Refreshed<Cmd>(r: Ring<Cmd>): nat {
    if r.first + ITEM <= r.size + r.last then ModSize(r.size + r.last - r.first - ITEM, r.size) else 0
  }

  function Step<Cmd>(s: State<Cmd>, a: Action<Cmd>): State<Cmd> {
    match a
    case Send(cmd) => if s.pc.Outside? then s.(pc := Test(cmd)) else s
    case SoftwareStep =>
      (match s.pc
       case Outside => s
       case Test(cmd) =>
         s.(pc := if Multiple(s.ring.cachedSpace, s.ring.size / 4) then Asked(cmd) else Copy(cmd))
       case Asked(cmd) => s
       case Told(cmd) =>
         var space := Refreshed(s.ring);
         s.(ring := s.ring.(cachedSpace := space), credited := s.seen,
            pc := if space != 0 then Copy(cmd) else Test(cmd))
       case Copy(cmd) =>
         s.(ring := Copied(s.ring, cmd), pc := Outside, cmds := s.cmds + [cmd]))
    case HardwareAnswer =>
      if s.pc.Asked? then s.(ring := s.ring.(last := s.hwLast), seen := s.acked, pc := Told(s.pc.cmd)) else s
    case HardwareAck =>
      if s.acked < |s.cmds| then s.(hwLast := Advance(s.hwLast, s.ring.size), acked := s.acked + 1) else s
  }

  function Run<Cmd>(base: seq<Cmd>, acts: seq<Action<Cmd>>): State<Cmd>
    requires base != []
  {
    if acts == [] then Init(base) else Step(Run(base, acts[..|acts| - 1]), acts[|acts| - 1])
  }

  // ----- The invariant -----

  /** `p` is `n` slots behind `first`, counting round the ring. */
  predicate Behind(p: nat, n: int, first: nat, size: nat) {
    p + ITEM * n == first || p + ITEM * n == first + size
  }

  /** A pointer to a slot. */
  predicate Slot(p: nat, size: nat) {
    p < size && p % ITEM == 0
  }

  /** The slot of the `k`-th slot after `p`. */
  function SlotAfter(p: nat, k: nat, size: nat): nat {
    ModSize(p + ITEM * k, size) / ITEM
  }

  /** The free bytes: all but one slot, less what is not yet acknowledged. */
  function FreeSpace<Cmd>(s: State<Cmd>): int {
    s.ring.size - ITEM - ITEM * (|s.cmds| - s.acked)
  }

  predicate Pointers<Cmd>(s: State<Cmd>) {
    && s.ring.base != [] && s.ring.size == ITEM * |s.ring.base|
    && Slot(s.ring.first, s.ring.size) && Slot(s.hwLast, s.ring.size) && Slot(s.ring.last, s.ring.size)
    && s.credited <= s.seen <= s.acked <= |s.cmds|
    && |s.cmds| - s.acked < |s.ring.base|
    && Behind(s.hwLast, |s.cmds| - s.acked, s.ring.first, s.ring.size)
  }

  predicate Credit<Cmd>(s: State<Cmd>) {
    && s.ring.cachedSpace == s.ring.size - ITEM - ITEM * (|s.cmds| - s.credited)
    && (s.pc.Told? ==>
          && |s.cmds| - s.seen < |s.ring.base|
          && Behind(s.ring.last, |s.cmds| - s.seen, s.ring.first, s.ring.size))
    && (s.pc.Copy? ==> s.ring.cachedSpace >= ITEM)
  }

  /** Every command not yet acknowledged is still in its slot. */
  ghost predicate Contents<Cmd>(s: State<Cmd>)
    requires s.acked <= |s.cmds|
  {
    forall k :: 0 <= k < |s.cmds| - s.acked ==>
      SlotAfter(s.hwLast, k, s.ring.size) < |s.ring.base|
      && s.ring.base[SlotAfter(s.hwLast, k, s.ring.size)] == s.cmds[s.acked + k]
  }

  ghost predicate Inv<Cmd>(s: State<Cmd>) {
    Pointers(s) && Credit(s) && Contents(s)
  }

  lemma {:induction false} InitInv<Cmd>(base: seq<Cmd>)
    requires base != []
    ensures Inv(Init(base))
  {
  }

  /** The slot that is copied to is none of those still to be acknowledged. */
  lemma {:induction false} FirstIsFree(hw: nat, n: nat, first: nat, size: nat, k: nat)
    requires Slot(hw, size) && Slot(first, size) && size % ITEM == 0 && Behind(hw, n, first, size)
    requires ITEM * n + ITEM <= size && k < n
    ensures SlotAfter(hw, k, size) != first / ITEM
  {
  }

  lemma {:induction false} FirstIsNext(hw: nat, n: nat, first: nat, size: nat)
    requires Slot(hw, size) && Slot(first, size) && Behind(hw, n, first, size) && ITEM * n < size
    ensures SlotAfter(hw, n, size) == first / ITEM
  {
  }

  lemma {:induction false} CopyPointers<Cmd>(s: State<Cmd>)
    requires Pointers(s) && Credit(s) && s.pc.Copy?
    ensures Pointers(Step(s, SoftwareStep)) && Credit(Step(s, SoftwareStep))
  {
    assert ITEM * (|s.cmds| - s.acked) <= s.ring.size - 2 * ITEM;
  }

  lemma {:induction false} CopyInv<Cmd>(s: State<Cmd>)
    requires Inv(s) && s.pc.Copy?
    ensures Inv(Step(s, SoftwareStep))
  {
    CopyPointers(s);
    var s' := Step(s, SoftwareStep);
    var n := |s.cmds| - s.acked;
    forall k | 0 <= k < n + 1
      ensures SlotAfter(s.hwLast, k, s.ring.size) < |s.ring.base|
      ensures s'.ring.base[SlotAfter(s.hwLast, k, s.ring.size)] == s'.cmds[s.acked + k]
    {
      if k < n {
        FirstIsFree(s.hwLast, n, s.ring.first, s.ring.size, k);
      } else {
        FirstIsNext(s.hwLast, n, s.ring.first, s.ring.size);
      }
    }
  }

  lemma {:induction false} AdvanceSlot(hw: nat, k: nat, size: nat)
    requires Slot(hw, size) && size % ITEM == 0 && ITEM * (k + 1) < size
    ensures SlotAfter(Advance(hw, size), k, size) == SlotAfter(hw, k + 1, size)
  {
  }

  /** The hardware's pointer moves one slot closer to `first`. */
  lemma {:induction false} AdvanceBehind(p: nat, n: nat, first: nat, size: nat)
    requires Slot(p, size) && Slot(first, size) && size % ITEM == 0 && Behind(p, n, first, size)
    requires 0 < n && ITEM * n + ITEM <= size
    ensures Slot(Advance(p, size), size) && Behind(Advance(p, size), n - 1, first, size)
  {
  }

  lemma {:induction false} AckPointers<Cmd>(s: State<Cmd>)
    requires Pointers(s) && Credit(s) && s.acked < |s.cmds|
    ensures Pointers(Step(s, HardwareAck)) && Credit(Step(s, HardwareAck))
  {
    AdvanceBehind(s.hwLast, |s.cmds| - s.acked, s.ring.first, s.ring.size);
  }

  lemma {:induction false} AckInv<Cmd>(s: State<Cmd>)
    requires Inv(s) && s.acked < |s.cmds|
    ensures Inv(Step(s, HardwareAck))
  {
    AckPointers(s);
    var s' := Step(s, HardwareAck);
    forall k | 0 <= k < |s'.cmds| - s'.acked
      ensures SlotAfter(s'.hwLast, k, s.ring.size) == SlotAfter(s.hwLast, k + 1, s.ring.size)
      ensures SlotAfter(s'.hwLast, k, s.ring.size) < |s.ring.base|
      ensures s.ring.base[SlotAfter(s'.hwLast, k, s.ring.size)] == s.cmds[s'.acked + k]
    {
      AdvanceSlot(s.hwLast, k, s.ring.size);
    }
  }

  lemma {:induction false} ToldInv<Cmd>(s: State<Cmd>)
    requires Inv(s) && s.pc.Told?
    ensures Inv(Step(s, SoftwareStep))
  {
    var n := |s.cmds| - s.seen;
    assert Refreshed(s.ring) == s.ring.size - ITEM - ITEM * n;
  }

  /** Without credit the loop always asks. */
  lemma {:induction false} ZeroAsks(size: nat)
    requires size >= ITEM
    ensures Multiple(0, size / 4)
  {
  }

  lemma {:induction false} TestInv<Cmd>(s: State<Cmd>)
    requires Inv(s) && s.pc.Test?
    ensures Inv(Step(s, SoftwareStep))
  {
    ZeroAsks(s.ring.size);
    assert s.ring.cachedSpace < ITEM ==> s.ring.cachedSpace == 0;
  }

  lemma {:induction false} StepInv<Cmd>(s: State<Cmd>, a: Action<Cmd>)
    requires Inv(s)
    ensures Inv(Step(s, a))
  {
    if a.HardwareAck? && s.acked < |s.cmds| {
      AckInv(s);
    } else if a.SoftwareStep? && s.pc.Copy? {
      CopyInv(s);
    } else if a.SoftwareStep? && s.pc.Told? {
      ToldInv(s);
    } else if a.SoftwareStep? && s.pc.Test? {
      TestInv(s);
    }
  }

  lemma {:induction false} Reachable<Cmd>(base: seq<Cmd>, acts: seq<Action<Cmd>>)
    requires base != []
    ensures Inv(Run(base, acts))
  {
    if acts == [] {
      InitInv(base);
    } else {
      Reachable(base, acts[..|acts| - 1]);
      StepInv(Run(base, acts[..|acts| - 1]), acts[|acts| - 1]);
    }
  }

  /** For every ring of one slot or more and every pattern of acknowledgements: the cached space never exceeds
      the free space, it is at least one slot whenever a command is copied, the copy overwrites no command
      that is not acknowledged, and a full ring never looks empty. */
  lemma {:induction false} RingIsSafe<Cmd>(base: seq<Cmd>, acts: seq<Action<Cmd>>)
    requires base != []
    ensures var s := Run(base, acts);
            && s.ring.cachedSpace <= FreeSpace(s)
            && s.acked <= |s.cmds| && Contents(s)
            && (s.acked < |s.cmds| ==> s.hwLast != s.ring.first)
            && (s.pc.Copy? ==>
                  && s.ring.cachedSpace >= ITEM && s.ring.first / ITEM < |s.ring.base|
                  && forall k :: 0 <= k < |s.cmds| - s.acked ==>
                    SlotAfter(s.hwLast, k, s.ring.size) != s.ring.first / ITEM)
  {
    Reachable(base, acts);
    var s := Run(base, acts);
    if s.pc.Copy? {
      forall k | 0 <= k < |s.cmds| - s.acked
        ensures SlotAfter(s.hwLast, k, s.ring.size) != s.ring.first / ITEM
      {
        FirstIsFree(s.hwLast, |s.cmds| - s.acked, s.ring.first, s.ring.size, k);
      }
    }
  }

  /** In a ring of up to 2^32 bytes no `unsigned` of the code ever wraps around: not the pointers, not the step of
      `first` before its test, and not the credit. */
  lemma {:induction false} NothingWraps<Cmd>(base: seq<Cmd>, acts: seq<Action<Cmd>>)
    requires 0 < |base| <= 0x400_0000
    ensures var s := Run(base, acts);
            && s.ring.size == ITEM * |base| && s.ring.first + ITEM <= 0x1_0000_0000
            && s.ring.last < 0x1_0000_0000 && s.hwLast < 0x1_0000_0000
            && s.ring.cachedSpace < 0x1_0000_0000 && (s.pc.Copy? ==> s.ring.cachedSpace >= ITEM)
  {
    Reachable(base, acts);
    SameSize(base, acts);
  }

  lemma {:induction false} SameSize<Cmd>(base: seq<Cmd>, acts: seq<Action<Cmd>>)
    requires base != []
    ensures Run(base, acts).ring.size == ITEM * |base|
  {
    if acts != [] {
      SameSize(base, acts[..|acts| - 1]);
    }
  }

  /** The hardware reads the commands in order and intact: what lies at its pointer is the oldest command that it
      has not acknowledged. */
  lemma {:induction false} HardwareSeesOldest<Cmd>(base: seq<Cmd>, acts: seq<Action<Cmd>>)
    requires base != [] && Run(base, acts).acked < |Run(base, acts).cmds|
    ensures var s := Run(base, acts); s.hwLast / ITEM < |s.ring.base| && s.ring.base[s.hwLast / ITEM] == s.cmds[s.acked]
  {
    Reachable(base, acts);
    var s := Run(base, acts);
    assert SlotAfter(s.hwLast, 0, s.ring.size) == s.hwLast / ITEM;
  }

  lemma {:induction false} QuarterMultiple(x: nat, q: nat)
    requires q > 0 && x < 4 * q
    ensures Multiple(x, q) <==> x == 0 || x == q || x == 2 * q || x == 3 * q
  {
    if x < q {
      assert x / q == 0;
    } else if x < 2 * q {
      assert x / q == 1;
    } else if x < 3 * q {
      assert x / q == 2;
    } else {
      assert x / q == 3;
    }
  }

  /** No credit, or a quarter, a half or three quarters of the ring. */
  predicate AtQuarter(space: nat, size: nat) {
    space == 0 || 4 * space == size || 2 * space == size || 4 * space == 3 * size
  }

  lemma {:induction false} TestAsks<Cmd>(s: State<Cmd>)
    requires Pointers(s) && Credit(s) && s.pc.Test?
    ensures Step(s, SoftwareStep).pc == Asked(s.pc.cmd) <==> AtQuarter(s.ring.cachedSpace, s.ring.size)
  {
    var q := 16 * |s.ring.base|;
    assert s.ring.size / 4 == q;
    QuarterMultiple(s.ring.cachedSpace, q);
  }

  lemma {:induction false} ToldGoesOn<Cmd>(s: State<Cmd>)
    requires Pointers(s) && Credit(s) && s.pc.Told?
    ensures Step(s, SoftwareStep).pc == if |s.cmds| - s.seen + 1 < |s.ring.base| then Copy(s.pc.cmd) else Test(s.pc.cmd)
  {
    assert Refreshed(s.ring) == ITEM * (|s.ring.base| - 1 - (|s.cmds| - s.seen));
  }

  /** ring_send asks the hardware exactly when its credit is none, a quarter, a half or three quarters of the ring;
      with the answer it goes on exactly when a slot was free as it was given. */
  lemma {:induction false} AsksAtQuarters<Cmd>(base: seq<Cmd>, acts: seq<Action<Cmd>>)
    requires base != []
    ensures var s := Run(base, acts);
            && (s.pc.Test? ==>
                  (Step(s, SoftwareStep).pc == Asked(s.pc.cmd) <==> AtQuarter(s.ring.cachedSpace, s.ring.size)))
            && (s.pc.Told? ==>
                  Step(s, SoftwareStep).pc
                  == if |s.cmds| - s.seen + 1 < |s.ring.base| then Copy(s.pc.cmd) else Test(s.pc.cmd))
  {
    Reachable(base, acts);
    var s := Run(base, acts);
    if s.pc.Test? {
      TestAsks(s);
    } else if s.pc.Told? {
      ToldGoesOn(s);
    }
  }

  /** A command sent while a slot is free is copied, with at most one inquiry. */
  lemma {:induction false} SendCompletes<Cmd>(base: seq<Cmd>, acts: seq<Action<Cmd>>, cmd: Cmd)
    requires base != [] && Run(base, acts).pc.Outside? && FreeSpace(Run(base, acts)) >= ITEM
    ensures var s := Run(base, acts);
            var t := Step(Step(Step(Step(s, Send(cmd)), SoftwareStep), HardwareAnswer), SoftwareStep);
            var u := if t.pc.Outside? then t else Step(t, SoftwareStep);
            u.pc.Outside? && u.cmds == s.cmds + [cmd] && u.acked == s.acked
  {
    var s := Run(base, acts);
    Reachable(base, acts);
    var s1 := Step(s, Send(cmd));
    var s2 := Step(s1, SoftwareStep);
    if s2.pc.Asked? {
      var s3 := Step(s2, HardwareAnswer);
      assert Refreshed(s3.ring) == FreeSpace(s);
    }
  }

  // ----- ring_send as it is written -----

  class SWRing<Cmd(0)> {
    const base: array<Cmd>
    var first: nat
    var last: nat
    const size: nat
    var cachedSpace: nat

    ghost function AsRing(): Ring<Cmd>
      reads this, base
    {
      Ring(base[..], first, last, size, cachedSpace)
    }

    /** ring_init. */
    constructor (slots: nat)
      requires slots > 0
      ensures fresh(base) && base.Length == slots && AsRing() == Init(base[..]).ring
    {
      base := new Cmd[slots];
      size := ITEM * slots;
      first, last := 0, 0;
      cachedSpace := ITEM * slots - ITEM;
    }

    /** The loop of ring_send. */
    method AwaitCredit(answers: seq<nat>) returns (credit: bool, used: nat)
      requires size > 0 && first + ITEM <= size
      requires forall i :: 0 <= i < |answers| ==> answers[i] < size
      modifies this`last, this`cachedSpace
      ensures used <= |answers| && (!credit ==> used == |answers|)
      ensures used == 0 ==> last == old(last) && cachedSpace == old(cachedSpace)
      ensures used > 0 ==>
                && old(cachedSpace) % (size / 4) == 0 && last == answers[used - 1]
                && cachedSpace == Refreshed(AsRing())
      ensures credit <==> if used == 0 then cachedSpace % (size / 4) != 0 else cachedSpace != 0
      ensures forall i :: 0 <= i < (if credit then used - 1 else used) ==> Refreshed(AsRing().(last := answers[i])) == 0
    {
      used := 0;
      while Multiple(cachedSpace, size / 4)
        invariant used <= |answers|
        invariant used == 0 ==> last == old(last) && cachedSpace == old(cachedSpace)
        invariant used > 0 ==>
                    && Multiple(old(cachedSpace), size / 4) && last == answers[used - 1]
                    && cachedSpace == 0 == Refreshed(AsRing())
        invariant forall i :: 0 <= i < used ==> Refreshed(AsRing().(last := answers[i])) == 0
        decreases |answers| - used
      {
        if used == |answers| {
          return false, used;
        }
        last := answers[used];
        used := used + 1;
        ModSizeIsRemainder(size + last - first - ITEM, size);
        cachedSpace := (size + last - first - ITEM) % size;
        if cachedSpace != 0 {
          return true, used;
        }
      }
      return true, used;
    }

    /** ring_send; `answers` are the hardware's answers to its inquiries, in the order they come. Without enough of
        them the call is still waiting. Otherwise it has made the model's steps: it took answers until one left
        credit, or none if there was credit, and copied the command. */
    method RingSend(cmd: Cmd, answers: seq<nat>) returns (sent: bool, used: nat)
      requires base.Length > 0 && size == ITEM * base.Length && first < size && first % ITEM == 0
      requires forall i :: 0 <= i < |answers| ==> answers[i] < size && answers[i] % ITEM == 0
      modifies this, base
      ensures used <= |answers|
      ensures !sent ==> used == |answers| && first == old(first) && base[..] == old(base[..])
      ensures sent && used == 0 ==> AsRing() == Copied(old(AsRing()), cmd)
      ensures sent && used > 0 ==>
                var r := old(AsRing()).(last := answers[used - 1]);
                Refreshed(r) != 0 && AsRing() == Copied(r.(cachedSpace := Refreshed(r)), cmd)
      ensures used > 0 ==> old(cachedSpace) % (size / 4) == 0
      ensures forall i :: 0 <= i < (if sent then used - 1 else used) ==>
              Refreshed(old(AsRing()).(last := answers[i])) == 0
      ensures sent ==> (used == 0 <==> old(cachedSpace) % (size / 4) != 0)
    {
      sent, used := AwaitCredit(answers);
      assert forall i :: 0 <= i < |answers| ==>
             Refreshed(AsRing().(last := answers[i])) == Refreshed(old(AsRing()).(last := answers[i]));
      if !sent {
        return;
      }
      base[first / ITEM] := cmd;
      var nextFirst := first + ITEM;
      if nextFirst == size {
        nextFirst := 0;
      }
      first := nextFirst;
      cachedSpace := if cachedSpace >= ITEM then cachedSpace - ITEM else cachedSpace + 0x1_0000_0000 - ITEM;
    }
  }
}
