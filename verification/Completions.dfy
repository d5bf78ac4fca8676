/**
 The completion tags of examples/ring/testring.cpp: each command carries a tag from a free list, and the
 hardware returns the tag when the command is done, which runs the callback registered with it.
 */
module Completions {

  import opened Options
  import opened Sequences

  const TAGS := 1024

  /** The `finish` function, possibly null, and its argument. */
  datatype Callback = Callback(finish: Option<nat>, arg: nat)

  /** The free list, which registration each tag in use belongs to, the callbacks registered so far, and the
      registrations completed so far, in order. */
  datatype State = State(free: seq<nat>, inUse: map<nat, nat>, registered: seq<Callback>, completed: seq<nat>)

  /** completion_list_init: tags 1 to 1023. */
  function Init(): State {
    State(Upto(TAGS - 1), map[], [], [])
  }

  /** The numbers 1 to `n`. */
  function Upto(n: nat): (q: seq<nat>)
    ensures |q| == n && forall i :: 0 <= i < n ==> q[i] == i + 1
  {
    if n == 0 then [] else Upto(n - 1) + [n]
  }

  /** A tag is taken for a callback, or is given back by the hardware. */
  datatype Action = Register(cb: Callback) | Complete(tag: nat)

  function Without(m: map<nat, nat>, tag: nat): map<nat, nat> {
    map t | t in m && t != tag :: m[t]
  }

  /** get_free_completion in ring_send, and Ring_Handle_Completion; the assertions of the code are the guards. */
  function Step(s: State, a: Action): State {
    match a
    case Register(cb) =>
      if s.free == [] then s
      else State(s.free[1..], s.inUse[s.free[0] := |s.registered|], s.registered + [cb], s.completed)
    case Complete(tag) =>
      if tag in s.inUse then
        State(s.free + [tag], Without(s.inUse, tag), s.registered, s.completed + [s.inUse[tag]])
      else s
  }

  function Run(acts: seq<Action>): State {
    if acts == [] then Init() else Step(Run(acts[..|acts| - 1]), acts[|acts| - 1])
  }

  predicate Known(completed: seq<nat>, registered: seq<Callback>) {
    forall i :: 0 <= i < |completed| ==> completed[i] < |registered|
  }

  /** What Ring_Handle_Completion calls: the function, if there is one, with its own argument. */
  function CallOf(cb: Callback): seq<Callback> {
    if cb.finish.Some? then [cb] else []
  }

  /** The calls made, in order. */
  function Calls(completed: seq<nat>, registered: seq<Callback>): seq<Callback>
    requires Known(completed, registered)
  {
    if completed == [] then []
    else Calls(completed[..|completed| - 1], registered) + CallOf(registered[completed[|completed| - 1]])
  }

  /** The free list and the tags in use share out 1 to 1023. */
  predicate Partition(s: State) {
    && Distinct(s.free)
    && (forall t :: t in s.free ==> 1 <= t < TAGS && t !in s.inUse)
    && (forall t :: t in s.inUse ==> 1 <= t < TAGS)
    && (forall t :: 1 <= t < TAGS ==> t in s.free || t in s.inUse)
  }

  /** Each registration is outstanding under one tag, or completed once, and not both. */
  predicate OnceEach(s: State) {
    && (forall t :: t in s.inUse ==> s.inUse[t] < |s.registered| && s.inUse[t] !in s.completed)
    && (forall t, t' :: t in s.inUse && t' in s.inUse && t != t' ==> s.inUse[t] != s.inUse[t'])
    && Known(s.completed, s.registered)
    && Distinct(s.completed)
    && (forall n :: 0 <= n < |s.registered| ==> n in s.completed || n in s.inUse.Values)
  }

  lemma {:induction false} RegisterInv(s: State, cb: Callback)
    requires Partition(s) && OnceEach(s)
    ensures Partition(Step(s, Register(cb))) && OnceEach(Step(s, Register(cb)))
  {
    if s.free != [] {
      var s' := Step(s, Register(cb));
      var tag, n := s.free[0], |s.registered|;
      assert s.free == [tag] + s.free[1..] && tag in s.free;
      assert tag !in s.free[1..] && forall t :: t in s.free[1..] ==> t in s.free;
      assert s'.inUse[tag] == n && n in s'.inUse.Values;
      forall m | 0 <= m < |s'.registered|
        ensures m in s'.completed || m in s'.inUse.Values
      {
        if m < n && m !in s.completed {
          var t :| t in s.inUse && s.inUse[t] == m;
          assert s'.inUse[t] == m;
        }
      }
    }
  }

  lemma {:induction false} CompleteInv(s: State, tag: nat)
    requires Partition(s) && OnceEach(s)
    ensures Partition(Step(s, Complete(tag))) && OnceEach(Step(s, Complete(tag)))
  {
    if tag in s.inUse {
      var s' := Step(s, Complete(tag));
      var n := s.inUse[tag];
      assert tag !in s.free;
      assert s'.completed[|s.completed|] == n;
      forall m | 0 <= m < |s.registered|
        ensures m in s'.completed || m in s'.inUse.Values
      {
        if m in s.completed {
          assert m in s'.completed;
        } else if m != n {
          var t :| t in s.inUse && s.inUse[t] == m;
          assert t in s'.inUse && s'.inUse[t] == m;
        }
      }
    }
  }

  lemma {:induction false} Reachable(acts: seq<Action>)
    ensures Partition(Run(acts)) && OnceEach(Run(acts))
  {
    if acts == [] {
      forall t | 1 <= t < TAGS
        ensures t in Init().free
      {
        assert Init().free[t - 1] == t;
      }
    } else {
      var s, a := Run(acts[..|acts| - 1]), acts[|acts| - 1];
      Reachable(acts[..|acts| - 1]);
      match a
      case Register(cb) => RegisterInv(s, cb);
      case Complete(tag) => CompleteInv(s, tag);
    }
  }

  /** In every run the free list and the tags in use share out 1 to 1023, and each registered callback is
      outstanding under exactly one tag or has been run exactly once. */
  lemma {:induction false} CallbacksRunOnce(acts: seq<Action>, n: nat)
    requires n < |Run(acts).registered|
    ensures var s := Run(acts);
            && Partition(s) && OnceEach(s)
            && (n in s.completed <==> n !in s.inUse.Values)
            && multiset(s.completed)[n] == if n in s.inUse.Values then 0 else 1
  {
    Reachable(acts);
    var s := Run(acts);
    DistinctOnce(s.completed, n);
  }

  lemma {:induction false} DistinctOnce(q: seq<nat>, n: nat)
    requires Distinct(q)
    ensures multiset(q)[n] == if n in q then 1 else 0
    decreases |q|
  {
    if q != [] {
      var front, last := q[..|q| - 1], q[|q| - 1];
      assert q == front + [last];
      DistinctOnce(front, n);
      assert last !in front;
    }
  }

  /** Once every tag is back, each callback registered with a function has been called once with its own
      argument, and nothing else has been called. */
  lemma {:induction false} AllCalledWhenIdle(acts: seq<Action>)
    requires Run(acts).inUse == map[]
    ensures var s := Run(acts);
            && Known(s.completed, s.registered)
            && (forall cb :: multiset(Calls(s.completed, s.registered))[cb]
                             == if cb.finish.Some? then multiset(s.registered)[cb] else 0)
            && |s.free| == TAGS - 1
  {
    var s := Run(acts);
    Reachable(acts);
    var n := |s.registered|;
    forall k | 0 <= k < n
      ensures k in s.completed
    {
      CallbacksRunOnce(acts, k);
    }
    CallsOfPermutation(s.completed, s.registered, n);
    CallBagCounts(s.completed, s.registered);
    assert s.registered[..n] == s.registered;
    forall cb: Callback
      ensures multiset(AllCalls(s.registered))[cb] == if cb.finish.Some? then multiset(s.registered)[cb] else 0
    {
      AllCallsCount(s.registered, cb);
    }
    assert forall t :: t in s.free <==> 1 <= t < TAGS;
    FreeCount(s.free, TAGS);
  }

  /** Every registered function, with its argument. */
  function AllCalls(registered: seq<Callback>): seq<Callback> {
    if registered == [] then [] else AllCalls(registered[..|registered| - 1]) + CallOf(registered[|registered| - 1])
  }

  lemma {:induction false} AllCallsCount(registered: seq<Callback>, cb: Callback)
    ensures multiset(AllCalls(registered))[cb] == if cb.finish.Some? then multiset(registered)[cb] else 0
  {
    if registered != [] {
      var n := |registered| - 1;
      assert registered == registered[..n] + [registered[n]];
      AllCallsCount(registered[..n], cb);
    }
  }

  // ----- The order in which tags are used again -----

  /** The step that last freed the tag; one that has not been used counts from its place in the first list. */
  function LastFreed(acts: seq<Action>, t: nat): int {
    if acts == [] then t - TAGS
    else
      var n := |acts| - 1;
      if acts[n] == Complete(t) && t in Run(acts[..n]).inUse then n else LastFreed(acts[..n], t)
  }

  lemma {:induction false} FreedEarlier(acts: seq<Action>, t: nat)
    requires t < TAGS
    ensures LastFreed(acts, t) < |acts|
  {
    if acts != [] {
      FreedEarlier(acts[..|acts| - 1], t);
    }
  }

  /** The free list is in the order in which its tags were freed. */
  predicate ByAge(acts: seq<Action>, free: seq<nat>) {
    forall i, j :: 0 <= i < j < |free| ==> LastFreed(acts, free[i]) < LastFreed(acts, free[j])
  }

  lemma {:induction false} FreeListByAge(acts: seq<Action>)
    ensures ByAge(acts, Run(acts).free)
  {
    if acts != [] {
      var n := |acts| - 1;
      var s, a, free := Run(acts[..n]), acts[n], Run(acts).free;
      FreeListByAge(acts[..n]);
      Reachable(acts[..n]);
      forall i, j | 0 <= i < j < |free|
        ensures LastFreed(acts, free[i]) < LastFreed(acts, free[j])
      {
        var d := if a.Register? && s.free != [] then 1 else 0;
        assert free[i] == s.free[i + d];
        assert free[i] in s.free;
        if j + d < |s.free| {
          assert free[j] in s.free;
        } else {
          FreedEarlier(acts[..n], free[i]);
        }
      }
    }
  }

  /** A registration takes the tag that has been free for longest. */
  lemma {:induction false} OldestTagFirst(acts: seq<Action>, cb: Callback, tag: nat, other: nat)
    requires tag !in Run(acts).inUse && tag in Run(acts + [Register(cb)]).inUse
    requires 1 <= other < TAGS && other != tag && other !in Run(acts).inUse
    ensures LastFreed(acts, tag) < LastFreed(acts, other)
  {
    RunSnoc(acts, Register(cb));
    Reachable(acts);
    FreeListByAge(acts);
    var free := Run(acts).free;
    assert other in free;
    var j :| 0 <= j < |free| && free[j] == other;
    assert free[0] == tag;
  }

  /** `q` without its element at `i`. */
  function Drop(q: seq<nat>, i: nat): seq<nat>
    requires i < |q|
  {
    q[..i] + q[i + 1..]
  }

  predicate Distinct(q: seq<nat>) {
    forall i, j :: 0 <= i < j < |q| ==> q[i] != q[j]
  }

  lemma {:induction false} DropKeeps(q: seq<nat>, i: nat)
    requires i < |q| && Distinct(q)
    ensures Distinct(Drop(q, i)) && q[i] !in Drop(q, i)
    ensures forall m :: m in Drop(q, i) ==> m in q
    ensures forall m :: m in q && m != q[i] ==> m in Drop(q, i)
  {
    forall m | m in q && m != q[i]
      ensures m in Drop(q, i)
    {
      var j :| 0 <= j < |q| && q[j] == m;
      assert if j < i then Drop(q, i)[j] == m else Drop(q, i)[j - 1] == m;
    }
  }

  lemma {:induction false} EmptyOrMember(q: seq<nat>)
    ensures q == [] || exists m :: m in q
  {
    if q != [] {
      assert q[0] in q;
    }
  }

  /** How often each call is made. */
  ghost function CallBag(completed: seq<nat>, registered: seq<Callback>): multiset<Callback>
    requires Known(completed, registered)
  {
    if completed == [] then multiset{}
    else CallBag(completed[..|completed| - 1], registered) + multiset(CallOf(registered[completed[|completed| - 1]]))
  }

  lemma {:induction false} CallBagCounts(completed: seq<nat>, registered: seq<Callback>)
    requires Known(completed, registered)
    ensures multiset(Calls(completed, registered)) == CallBag(completed, registered)
  {
    if completed != [] {
      CallBagCounts(completed[..|completed| - 1], registered);
    }
  }

  lemma {:induction false} CallBagSnoc(q: seq<nat>, n: nat, registered: seq<Callback>)
    requires Known(q, registered) && n < |registered|
    ensures Known(q + [n], registered)
    ensures CallBag(q + [n], registered) == CallBag(q, registered) + multiset(CallOf(registered[n]))
  {
    assert (q + [n])[..|q|] == q;
  }

  lemma {:induction false} CallBagRemove(a: seq<nat>, k: nat, b: seq<nat>, registered: seq<Callback>)
    requires Known(a, registered) && Known(b, registered) && k < |registered|
    ensures Known(a + [k] + b, registered) && Known(a + b, registered)
    ensures CallBag(a + [k] + b, registered) == CallBag(a + b, registered) + multiset(CallOf(registered[k]))
    decreases |b|
  {
    if b == [] {
      assert a + [k] + b == a + [k] && a + b == a;
      CallBagSnoc(a, k, registered);
    } else {
      var b', last := b[..|b| - 1], b[|b| - 1];
      assert b == b' + [last];
      ConcatAssociative(a + [k], b', [last]);
      ConcatAssociative(a, b', [last]);
      CallBagRemove(a, k, b', registered);
      CallBagSnoc(a + [k] + b', last, registered);
      CallBagSnoc(a + b', last, registered);
    }
  }

  lemma {:induction false} CallBagDrop(q: seq<nat>, i: nat, registered: seq<Callback>)
    requires Known(q, registered) && i < |q|
    ensures Known(Drop(q, i), registered)
    ensures CallBag(q, registered) == CallBag(Drop(q, i), registered) + multiset(CallOf(registered[q[i]]))
  {
    assert q == q[..i] + [q[i]] + q[i + 1..];
    CallBagRemove(q[..i], q[i], q[i + 1..], registered);
  }

  lemma {:induction false} AllCallsSnoc(registered: seq<Callback>, n: nat)
    requires n < |registered|
    ensures multiset(AllCalls(registered[..n + 1]))
            == multiset(AllCalls(registered[..n])) + multiset(CallOf(registered[n]))
  {
    assert registered[..n + 1][..n] == registered[..n];
  }

  /** The completions but that of registration `n - 1`. */
  lemma {:induction false} WithoutNewest(completed: seq<nat>, registered: seq<Callback>, n: nat)
    returns (rest: seq<nat>)
    requires 0 < n <= |registered| && Known(completed, registered) && Distinct(completed)
    requires forall m :: m in completed <==> 0 <= m < n
    ensures Known(rest, registered) && Distinct(rest)
    ensures forall m :: m in rest <==> 0 <= m < n - 1
    ensures CallBag(completed, registered) == CallBag(rest, registered) + multiset(CallOf(registered[n - 1]))
  {
    assert n - 1 in completed;
    var i :| 0 <= i < |completed| && completed[i] == n - 1;
    rest := Drop(completed, i);
    CallBagDrop(completed, i, registered);
    DropKeeps(completed, i);
  }

  /** Completing the first `n` registrations in any order makes the same calls. */
  lemma {:induction false} CallsOfPermutation(completed: seq<nat>, registered: seq<Callback>, n: nat)
    requires n <= |registered| && Known(completed, registered) && Distinct(completed)
    requires forall m :: m in completed <==> 0 <= m < n
    ensures CallBag(completed, registered) == multiset(AllCalls(registered[..n]))
    decreases n
  {
    if n == 0 {
      EmptyOrMember(completed);
    } else {
      var rest := WithoutNewest(completed, registered, n);
      CallsOfPermutation(rest, registered, n - 1);
      AllCallsSnoc(registered, n - 1);
    }
  }

  /** Distinct numbers that make up 1 to `n - 1` are `n - 1` many. */
  lemma {:induction false} FreeCount(q: seq<nat>, n: nat)
    requires n >= 1 && Distinct(q)
    requires forall t :: t in q <==> 1 <= t < n
    ensures |q| == n - 1
    decreases n
  {
    if n == 1 {
      EmptyOrMember(q);
    } else {
      assert n - 1 in q;
      var i :| 0 <= i < |q| && q[i] == n - 1;
      DropKeeps(q, i);
      FreeCount(Drop(q, i), n - 1);
    }
  }

  // ----- The code -----

  /** The table holds what the state says: the same free list, the same tags in use, and under each of those its
      registration's callback. */
  ghost predicate Holds(free: seq<nat>, inUse: seq<bool>, callbacks: seq<Callback>, s: State) {
    && |inUse| == |callbacks| == TAGS
    && free == s.free
    && (forall t :: 0 <= t < TAGS ==> (inUse[t] <==> t in s.inUse))
    && (forall t :: 0 <= t < TAGS && t in s.inUse ==>
          s.inUse[t] < |s.registered| && callbacks[t] == s.registered[s.inUse[t]])
  }

  lemma {:induction false} RunSnoc(acts: seq<Action>, a: Action)
    ensures Run(acts + [a]) == Step(Run(acts), a)
  {
    assert (acts + [a])[..|acts|] == acts;
  }

  /** The array of completions and the free list; `history` is what has been done to them. */
  class CompletionTable {
    const inUse: array<bool>
    const callbacks: array<Callback>
    var free: seq<nat>
    ghost var history: seq<Action>

    ghost predicate Valid()
      reads this, inUse, callbacks
    {
      Holds(free, inUse[..], callbacks[..], Run(history))
    }

    /** completion_list_init. */
    constructor ()
      ensures Valid() && fresh(inUse) && fresh(callbacks) && history == []
    {
      inUse := new bool[TAGS](_ => false);
      callbacks := new Callback[TAGS](_ => Callback(None, 0));
      free := Upto(TAGS - 1);
      history := [];
    }

    /** get_free_completion and the assignments of ring_send: the tag that has been free for longest, or none if all
        are in use. */
    method Take(cb: Callback) returns (tag: Option<nat>)
      requires Valid()
      modifies this, inUse, callbacks
      ensures Valid() && history == old(history) + [Register(cb)]
      ensures tag.None? <==> forall t :: 1 <= t < TAGS ==> old(inUse[..])[t]
      ensures tag.Some? ==> 1 <= tag.value < TAGS && !old(inUse[..])[tag.value] && inUse[tag.value]
      ensures tag.Some? ==> tag.value in Run(history).inUse
                            && Run(history).inUse[tag.value] == |Run(old(history)).registered|
      ensures tag.Some? ==>
                forall t :: 1 <= t < TAGS && !old(inUse[..])[t] && t != tag.value ==>
                  LastFreed(old(history), tag.value) < LastFreed(old(history), t)
    {
      ghost var s := Run(history);
      Reachable(history);
      RunSnoc(history, Register(cb));
      history := history + [Register(cb)];
      if free == [] {
        return None;
      }
      var p := free[0];
      assert p in s.free && !inUse[p];  // assert(p->in_use == 0)
      free := free[1..];
      inUse[p] := true;
      callbacks[p] := cb;
      forall t | 1 <= t < TAGS && !old(inUse[..])[t] && t != p
        ensures LastFreed(old(history), p) < LastFreed(old(history), t)
      {
        OldestTagFirst(old(history), cb, p, t);
      }
      return Some(p);
    }

    /** Ring_Handle_Completion, for a tag that is in use: it calls the function registered with that tag, if there
        is one, and the tag is free again. */
    method HandleCompletion(tag: nat) returns (called: seq<Callback>)
      requires Valid() && tag < inUse.Length && inUse[tag]
      modifies this, inUse
      ensures Valid() && history == old(history) + [Complete(tag)]
      ensures var s, s' := Run(old(history)), Run(history);
              && tag in s.inUse && s.inUse[tag] < |s.registered|
              && (var cb := s.registered[s.inUse[tag]]; called == if cb.finish.Some? then [cb] else [])
              && s'.completed == s.completed + [s.inUse[tag]] && tag !in s'.inUse
    {
      RunSnoc(history, Complete(tag));
      history := history + [Complete(tag)];
      inUse[tag] := false;
      called := if callbacks[tag].finish.Some? then [callbacks[tag]] else [];
      free := free + [tag];
    }
  }
}
