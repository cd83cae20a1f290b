/**
  Properties of the argument registry that span several operations: the
  invariant `Valid` is established by `setup` and kept by adding, removing
  and re-keying an argument, by the kernel build and by the dispatch and
  read (not by `release`, which empties the live set while the map still
  names the buffers); adding and then removing an argument undoes the add, a re-keyed argument is
  bound with its unchanged buffer, bindings come out in slot order, and
  `release` releases each owned buffer exactly once and runs each host
  callback once.
 */
module RegistryProofs {
  import opened Results
  import opened Registry

  /** `setup` yields a valid, empty session with no program and no kernel. */
  lemma SetupIsValid()
    ensures Valid(Setup())
    ensures Setup().arguments == map[] && Setup().bindings == []
    ensures Setup().program.NullHandle? && Setup().kernel.NullHandle?
  {
  }

  lemma OwnedAfterInsert(m: map<Slot, Arg>, k: Slot, a: Arg)
    requires k !in m
    ensures OwnedBuffers(m[k := a]) == OwnedBuffers(m) + BufferOf(a)
  {
    var m' := m[k := a];
    forall b | b in OwnedBuffers(m')
      ensures b in OwnedBuffers(m) + BufferOf(a)
    {
      var j :| j in m' && m'[j].buffer.Mem? && m'[j].buffer.id == b;
      if j != k {
        assert j in m;
      }
    }
    forall b | b in OwnedBuffers(m)
      ensures b in OwnedBuffers(m')
    {
      var j :| j in m && m[j].buffer.Mem? && m[j].buffer.id == b;
      assert j in m' && m'[j] == m[j];
    }
    if a.buffer.Mem? {
      assert m'[k] == a;
    }
  }

  lemma OwnedAfterRemove(m: map<Slot, Arg>, k: Slot)
    requires k in m && DistinctBuffers(m)
    ensures OwnedBuffers(m - {k}) == OwnedBuffers(m) - BufferOf(m[k])
  {
    var m' := m - {k};
    forall b | b in OwnedBuffers(m)
      ensures b in OwnedBuffers(m') <==> b !in BufferOf(m[k])
    {
      var j :| j in m && m[j].buffer.Mem? && m[j].buffer.id == b;
      if j != k {
        assert j in m';
      } else {
        forall i | i in m' && m'[i].buffer.Mem?
          ensures m'[i].buffer.id != b
        {
          assert i != k;
        }
      }
    }
  }

  /**
    A successful `addArgument` keeps the invariant; the new buffer was live
    nowhere before, and the caller's handle is the registered argument.
   */
  lemma AddArgumentKeepsValid(
    s: Session, key: string, index: Slot, pointer: HostPtr, free: Option<Disposer>,
    size: nat, flags: nat, writeBuffer: bool)
    requires Valid(s)
    ensures var r := AddArgument(s, key, index, pointer, free, size, flags, writeBuffer);
      r.result.Success? ==>
        && Valid(r.session)
        && Registered(r.session, r.result.value)
        && r.result.value.buffer.id !in s.live
        && r.result.value.buffer.id !in OwnedBuffers(s.arguments)
  {
    var r := AddArgument(s, key, index, pointer, free, size, flags, writeBuffer);
    if r.result.Success? {
      var arg := r.result.value;
      var s' := r.session;
      assert arg.buffer.id !in s.live;
      OwnedAfterInsert(s.arguments, index, arg);
      forall k1, k2 | k1 in s'.arguments && k2 in s'.arguments && k1 != k2 && s'.arguments[k1].buffer.Mem?
        ensures s'.arguments[k1].buffer != s'.arguments[k2].buffer
      {
        if k1 != index && k2 != index {
        } else if k1 == index {
          assert s.arguments[k2].buffer.Mem? ==> s.arguments[k2].buffer.id in s.live;
        } else {
          assert s.arguments[k1].buffer.id in s.live;
        }
      }
      forall i | 0 <= i < |s'.trace| && s'.trace[i].CreateBuffer?
        ensures s'.trace[i].buffer < s'.nextBuffer
      {
        if i < |s.trace| {
          assert s'.trace[i] == s.trace[i];
        }
      }
    }
  }

  /** A successful `addLocalArgument` keeps the invariant and touches neither buffers nor the trace. */
  lemma AddLocalArgumentKeepsValid(s: Session, key: string, index: Slot, size: nat)
    requires Valid(s)
    ensures var r := AddLocalArgument(s, key, index, size);
      r.result.Success? ==>
        && Valid(r.session)
        && Registered(r.session, r.result.value)
        && r.session.live == s.live && r.session.trace == s.trace
  {
    var r := AddLocalArgument(s, key, index, size);
    if r.result.Success? {
      OwnedAfterInsert(s.arguments, index, r.result.value);
    }
  }

  /** Removing a registered argument keeps the invariant. */
  lemma RemoveArgumentKeepsValid(s: Session, arg: Arg)
    requires Valid(s) && Registered(s, arg)
    ensures Valid(RemoveArgument(s, arg))
  {
    var s' := RemoveArgument(s, arg);
    OwnedAfterRemove(s.arguments, arg.index);
    forall i | 0 <= i < |s'.trace| && s'.trace[i].CreateBuffer?
      ensures s'.trace[i].buffer < s'.nextBuffer
    {
      if i < |s.trace| {
        assert s'.trace[i] == s.trace[i];
      }
    }
  }

  /** Moving a registered argument to a free slot keeps the invariant; the handle stays registered. */
  lemma ChangeArgumentIndexKeepsValid(s: Session, arg: Arg, index: Slot)
    requires Valid(s) && Registered(s, arg)
    ensures var r := ChangeArgumentIndex(s, arg, index);
      r.result.Success? ==> Valid(r.session) && Registered(r.session, r.result.value)
  {
    var r := ChangeArgumentIndex(s, arg, index);
    if r.result.Success? {
      var s' := r.session;
      var moved := r.result.value;
      var without := s.arguments - {arg.index};
      assert s'.arguments == without[index := moved];
      OwnedAfterRemove(s.arguments, arg.index);
      OwnedAfterInsert(without, index, moved);
      assert BufferOf(moved) == BufferOf(arg);
      forall k1, k2 | k1 in s'.arguments && k2 in s'.arguments && k1 != k2 && s'.arguments[k1].buffer.Mem?
        ensures s'.arguments[k1].buffer != s'.arguments[k2].buffer
      {
        var o1 := if k1 == index then arg.index else k1;
        var o2 := if k2 == index then arg.index else k2;
        assert s'.arguments[k1].buffer == s.arguments[o1].buffer;
        assert s'.arguments[k2].buffer == s.arguments[o2].buffer;
      }
    }
  }

  /**
    `addArgument` followed by `removeArgument` on the returned handle gives
    back the original registry and live-buffer set.
   */
  lemma AddThenRemoveRestores(
    s: Session, key: string, index: Slot, pointer: HostPtr, free: Option<Disposer>,
    size: nat, flags: nat, writeBuffer: bool)
    requires Valid(s)
    ensures var r := AddArgument(s, key, index, pointer, free, size, flags, writeBuffer);
      r.result.Success? ==>
        var s'' := RemoveArgument(r.session, r.result.value);
        s''.arguments == s.arguments && s''.live == s.live && s''.arguments.Keys == s.arguments.Keys
  {
    var r := AddArgument(s, key, index, pointer, free, size, flags, writeBuffer);
    if r.result.Success? {
      AddArgumentKeepsValid(s, key, index, pointer, free, size, flags, writeBuffer);
      var s'' := RemoveArgument(r.session, r.result.value);
      assert s''.arguments == s.arguments;
      assert s''.live == s.live;
    }
  }

  /** `addLocalArgument` followed by `removeArgument` restores the session exactly, trace included. */
  lemma AddLocalThenRemoveRestores(s: Session, key: string, index: Slot, size: nat)
    ensures var r := AddLocalArgument(s, key, index, size);
      r.result.Success? ==> RemoveArgument(r.session, r.result.value) == s
  {
    var r := AddLocalArgument(s, key, index, size);
    if r.result.Success? {
      var s'' := RemoveArgument(r.session, r.result.value);
      assert s''.arguments == s.arguments;
    }
  }

  /**
    In a valid session `refreshKernelArguments` emits exactly one binding per
    registered slot, in strictly ascending slot order, each built from the
    argument stored at that slot.
   */
  lemma RefreshBindsInSlotOrder(s: Session)
    requires IndexedByKey(s.arguments)
    ensures var bs := RefreshKernelArguments(s).bindings;
      && (forall i, j | 0 <= i < j < |bs| :: bs[i].index < bs[j].index)
      && (forall k :: k in s.arguments <==> exists i :: 0 <= i < |bs| && bs[i].index == k)
      && (forall i | 0 <= i < |bs| :: bs[i].index in s.arguments && bs[i] == BindingOf(s.arguments[bs[i].index]))
  {
    RefreshIsBindingsInOrder(s);
    SlotOrderedBindings(s.arguments, AscendingSlots(s.arguments.Keys));
  }

  lemma RefreshIsBindingsInOrder(s: Session)
    ensures RefreshKernelArguments(s).bindings == BindingsFor(s.arguments, AscendingSlots(s.arguments.Keys))
  {
  }

  lemma SlotOrderedBindings(m: map<Slot, Arg>, slots: seq<Slot>)
    requires IndexedByKey(m)
    requires forall k :: k in slots <==> k in m
    requires forall i, j | 0 <= i < j < |slots| :: slots[i] < slots[j]
    ensures var bs := BindingsFor(m, slots);
      && (forall i, j | 0 <= i < j < |bs| :: bs[i].index < bs[j].index)
      && (forall k :: k in m <==> exists i :: 0 <= i < |bs| && bs[i].index == k)
      && (forall i | 0 <= i < |bs| :: bs[i].index in m && bs[i] == BindingOf(m[bs[i].index]))
  {
    var bs := BindingsFor(m, slots);
    BindingIndicesAreSlots(m, slots);
    forall i, j | 0 <= i < j < |bs|
      ensures bs[i].index < bs[j].index
    {
      assert bs[i].index == slots[i] && bs[j].index == slots[j];
    }
    forall i | 0 <= i < |bs|
      ensures bs[i].index in m && bs[i] == BindingOf(m[bs[i].index])
    {
      assert bs[i].index == slots[i];
    }
    forall k
      ensures k in m <==> exists i :: 0 <= i < |bs| && bs[i].index == k
    {
      if k in m {
        SlotPosition(slots, k);
        var i :| 0 <= i < |slots| && slots[i] == k;
        assert bs[i].index == k;
      }
    }
  }

  lemma BindingIndicesAreSlots(m: map<Slot, Arg>, slots: seq<Slot>)
    requires IndexedByKey(m)
    requires forall k | k in slots :: k in m
    ensures var bs := BindingsFor(m, slots);
      forall i | 0 <= i < |bs| :: bs[i].index == slots[i] && slots[i] in m
  {
    var bs := BindingsFor(m, slots);
    forall i | 0 <= i < |bs|
      ensures bs[i].index == slots[i] && slots[i] in m
    {
      assert slots[i] in slots;
      assert m[slots[i]].index == slots[i];
    }
  }

  lemma SlotPosition(slots: seq<Slot>, k: Slot)
    requires k in slots
    ensures exists i :: 0 <= i < |slots| && slots[i] == k
  {
  }

  /**
    After `changeArgumentIndex` and a refresh, a buffer argument is bound at
    its new slot with its own, unchanged buffer, and nothing is bound at its
    old slot.
   */
  lemma ChangeThenRefreshBindsSameBuffer(s: Session, arg: Arg, index: Slot)
    requires Valid(s) && Registered(s, arg) && !arg.IsLocal()
    ensures var r := ChangeArgumentIndex(s, arg, index);
      r.result.Success? ==>
        var bs := RefreshKernelArguments(r.session).bindings;
        && (exists i :: 0 <= i < |bs| && bs[i] == Binding(index, SIZEOF_CL_MEM, MemValue(arg.buffer.id)))
        && (forall i | 0 <= i < |bs| :: bs[i].index != arg.index)
  {
    var r := ChangeArgumentIndex(s, arg, index);
    if r.result.Success? {
      var m := r.session.arguments;
      ChangeArgumentIndexKeepsValid(s, arg, index);
      assert IndexedByKey(m);
      assert arg.index !in m;
      assert index in m && m[index] == arg.(index := index);
      RefreshBindsInSlotOrder(r.session);
      var bs := RefreshKernelArguments(r.session).bindings;
      var i :| 0 <= i < |bs| && bs[i].index == index;
      assert bs[i] == BindingOf(m[index]);
    }
  }

  /** No buffer id occurs twice. */
  predicate NoDuplicates(ids: seq<BufferId>)
  {
    forall i, j | 0 <= i < j < |ids| :: ids[i] != ids[j]
  }

  lemma {:induction false} ReleasedIdsConcat(a: seq<Call>, b: seq<Call>)
    ensures ReleasedIds(a + b) == ReleasedIds(a) + ReleasedIds(b)
    decreases |a|
  {
    if a == [] {
      assert a + b == b;
    } else {
      var head := if a[0].ReleaseMemObject? then [a[0].buffer] else [];
      assert (a + b)[0] == a[0];
      assert (a + b)[1..] == a[1..] + b;
      assert ReleasedIds(a + b) == head + ReleasedIds(a[1..] + b);
      ReleasedIdsConcat(a[1..], b);
      assert head + (ReleasedIds(a[1..]) + ReleasedIds(b)) == (head + ReleasedIds(a[1..])) + ReleasedIds(b);
    }
  }

  /**
    Freeing the arguments at `slots` is `freeResources` on the first of them
    followed by freeing the rest: the loop of `release`, one slot at a time.
   */
  lemma FreeInOrderStep(s: Session, slots: seq<Slot>)
    requires forall k | k in slots :: k in s.arguments
    ensures slots == [] ==> FreeInOrder(s, slots) == s
    ensures slots != [] ==>
      FreeInOrder(s, slots) == FreeInOrder(FreeResources(s, s.arguments[slots[0]]), slots[1..])
  {
    if slots == [] {
      assert BuffersAt(s.arguments, slots) == {};
    } else {
      var m := s.arguments;
      var arg := m[slots[0]];
      var once := FreeResources(s, arg);
      var calls := TeardownCalls(arg);
      var rest := TeardownTrace(m, slots[1..]);
      BuffersAtCons(m, slots);
      assert BuffersAt(m, [slots[0]]) == BufferOf(arg);
      assert once.live == s.live - BufferOf(arg);
      assert s.live - (BufferOf(arg) + BuffersAt(m, slots[1..])) == once.live - BuffersAt(m, slots[1..]);
      assert s.trace + (calls + rest) == once.trace + rest;
    }
  }

  /** The teardown calls of the arguments at `slots` release exactly their buffers, in slot order. */
  lemma {:induction false} TeardownTraceReleases(m: map<Slot, Arg>, slots: seq<Slot>)
    requires forall k | k in slots :: k in m
    ensures ReleasedIds(TeardownTrace(m, slots)) == BufferSeq(m, slots)
    decreases |slots|
  {
    if slots != [] {
      var arg := m[slots[0]];
      TeardownTraceReleases(m, slots[1..]);
      ReleasedIdsConcat(TeardownCalls(arg), TeardownTrace(m, slots[1..]));
      TeardownReleases(arg);
    }
  }

  /** Freeing the arguments at `slots` releases their buffers, in slot order. */
  lemma FreeInOrderReleases(s: Session, slots: seq<Slot>)
    requires forall k | k in slots :: k in s.arguments
    ensures ReleasedIds(FreeInOrder(s, slots).trace) == ReleasedIds(s.trace) + BufferSeq(s.arguments, slots)
  {
    TeardownTraceReleases(s.arguments, slots);
    ReleasedIdsConcat(s.trace, TeardownTrace(s.arguments, slots));
  }

  /** `freeResources` releases the argument's own buffer and no other. */
  lemma TeardownReleases(arg: Arg)
    ensures ReleasedIds(TeardownCalls(arg)) == if arg.buffer.Mem? then [arg.buffer.id] else []
  {
    if !arg.IsLocal() {
      var tail := if arg.free.Some? then [InvokeFree(arg.free.value, arg.pointer)] else [];
      ReleasedIdsConcat([ReleaseMemObject(arg.buffer.id)], tail);
      assert ReleasedIds(tail) == [];
    }
  }

  /** The ids `BufferSeq` lists are exactly the buffers owned at those slots. */
  lemma {:induction false} BufferSeqMembers(m: map<Slot, Arg>, slots: seq<Slot>)
    requires forall k | k in slots :: k in m
    ensures forall b :: b in BufferSeq(m, slots) <==> b in BuffersAt(m, slots)
    decreases |slots|
  {
    if slots != [] {
      BufferSeqMembers(m, slots[1..]);
      var arg := m[slots[0]];
      forall b
        ensures b in BuffersAt(m, slots) <==> b in BuffersAt(m, slots[1..]) || (arg.buffer.Mem? && b == arg.buffer.id)
      {
        if b in BuffersAt(m, slots) {
          var k :| k in slots && k in m && m[k].buffer.Mem? && m[k].buffer.id == b;
          if k != slots[0] {
            assert k in slots[1..];
          }
        }
        if b in BuffersAt(m, slots[1..]) {
          var k :| k in slots[1..] && k in m && m[k].buffer.Mem? && m[k].buffer.id == b;
          assert k in slots;
        }
      }
    }
  }

  /** Buffers of strictly ascending slots of a registry are pairwise distinct. */
  lemma {:induction false} BufferSeqDistinct(m: map<Slot, Arg>, slots: seq<Slot>)
    requires DistinctBuffers(m)
    requires forall k | k in slots :: k in m
    requires forall i, j | 0 <= i < j < |slots| :: slots[i] < slots[j]
    ensures NoDuplicates(BufferSeq(m, slots))
    decreases |slots|
  {
    if slots != [] {
      BufferSeqDistinct(m, slots[1..]);
      var arg := m[slots[0]];
      var rest := BufferSeq(m, slots[1..]);
      if arg.buffer.Mem? {
        BufferSeqMembers(m, slots[1..]);
        forall b | b in rest
          ensures b != arg.buffer.id
        {
          var k :| k in slots[1..] && k in m && m[k].buffer.Mem? && m[k].buffer.id == b;
          assert k != slots[0];
        }
        FreshHeadNoDuplicates(arg.buffer.id, rest);
      }
    }
  }

  lemma FreshHeadNoDuplicates(b: BufferId, rest: seq<BufferId>)
    requires NoDuplicates(rest) && b !in rest
    ensures NoDuplicates([b] + rest)
  {
    var ids := [b] + rest;
    forall i, j | 0 <= i < j < |ids|
      ensures ids[i] != ids[j]
    {
      assert ids[j] == rest[j - 1];
      if i > 0 {
        assert ids[i] == rest[i - 1];
      }
    }
  }

  /** The buffers `release` releases are those of the registered arguments, in slot order. */
  lemma ReleaseSegment(s: Session)
    ensures ReleasedIds(Release(s).trace) == ReleasedIds(s.trace) + BufferSeq(s.arguments, AscendingSlots(s.arguments.Keys))
  {
    var slots := AscendingSlots(s.arguments.Keys);
    var head := s.(trace := s.trace + [ReleaseKernel, ReleaseProgram]);
    var freed := FreeInOrder(head, slots);
    var ids := BufferSeq(s.arguments, slots);
    assert Release(s).trace == freed.trace + [ReleaseCommandQueue, ReleaseContext];
    FreeInOrderReleases(head, slots);
    assert ReleasedIds(freed.trace) == ReleasedIds(head.trace) + ids;
    ReleasedIdsConcat(s.trace, [ReleaseKernel, ReleaseProgram]);
    assert ReleasedIds([ReleaseKernel, ReleaseProgram]) == [];
    assert ReleasedIds(head.trace) == ReleasedIds(s.trace);
    ReleasedIdsConcat(freed.trace, [ReleaseCommandQueue, ReleaseContext]);
    assert ReleasedIds([ReleaseCommandQueue, ReleaseContext]) == [];
    assert ReleasedIds(Release(s).trace) == ReleasedIds(freed.trace);
  }

  lemma {:induction false} CallbacksConcat(a: seq<Call>, b: seq<Call>)
    ensures Callbacks(a + b) == Callbacks(a) + Callbacks(b)
    decreases |a|
  {
    if a == [] {
      assert a + b == b;
    } else {
      var head := if a[0].InvokeFree? then [a[0]] else [];
      assert (a + b)[0] == a[0];
      assert (a + b)[1..] == a[1..] + b;
      assert Callbacks(a + b) == head + Callbacks(a[1..] + b);
      CallbacksConcat(a[1..], b);
      assert head + (Callbacks(a[1..]) + Callbacks(b)) == (head + Callbacks(a[1..])) + Callbacks(b);
    }
  }

  /** `freeResources` runs the argument's own callback when it owns a buffer, and no other. */
  lemma TeardownCallbacks(arg: Arg)
    ensures Callbacks(TeardownCalls(arg)) ==
      if arg.buffer.Mem? && arg.free.Some? then [InvokeFree(arg.free.value, arg.pointer)] else []
  {
    if !arg.IsLocal() {
      var tail := if arg.free.Some? then [InvokeFree(arg.free.value, arg.pointer)] else [];
      CallbacksConcat([ReleaseMemObject(arg.buffer.id)], tail);
      assert Callbacks([ReleaseMemObject(arg.buffer.id)]) == [];
    }
  }

  /** The callbacks run while freeing the arguments at `slots` are the ones they carry, in slot order. */
  lemma {:induction false} TeardownTraceCallbacks(m: map<Slot, Arg>, slots: seq<Slot>)
    requires forall k | k in slots :: k in m
    ensures Callbacks(TeardownTrace(m, slots)) == DueCallbacks(m, slots)
    decreases |slots|
  {
    if slots != [] {
      var arg := m[slots[0]];
      TeardownTraceCallbacks(m, slots[1..]);
      CallbacksConcat(TeardownCalls(arg), TeardownTrace(m, slots[1..]));
      TeardownCallbacks(arg);
    }
  }

  /** Freeing the arguments at `slots` runs their callbacks, in slot order. */
  lemma FreeInOrderCallbacks(s: Session, slots: seq<Slot>)
    requires forall k | k in slots :: k in s.arguments
    ensures Callbacks(FreeInOrder(s, slots).trace) == Callbacks(s.trace) + DueCallbacks(s.arguments, slots)
  {
    TeardownTraceCallbacks(s.arguments, slots);
    CallbacksConcat(s.trace, TeardownTrace(s.arguments, slots));
  }

  /**
    `release` runs the host callback of every registered buffer argument that
    has one, once, on its host pointer, in ascending slot order, and runs no
    other callback.
   */
  lemma ReleaseRunsEachCallbackOnce(s: Session)
    ensures Callbacks(Release(s).trace) == Callbacks(s.trace) + DueCallbacks(s.arguments, AscendingSlots(s.arguments.Keys))
  {
    var slots := AscendingSlots(s.arguments.Keys);
    var head := s.(trace := s.trace + [ReleaseKernel, ReleaseProgram]);
    var freed := FreeInOrder(head, slots);
    assert Callbacks(head.trace) == Callbacks(s.trace) by {
      CallbacksConcat(s.trace, [ReleaseKernel, ReleaseProgram]);
      assert Callbacks([ReleaseKernel, ReleaseProgram]) == [];
    }
    assert Callbacks(freed.trace) == Callbacks(head.trace) + DueCallbacks(s.arguments, slots) by {
      FreeInOrderCallbacks(head, slots);
    }
    assert Callbacks(Release(s).trace) == Callbacks(freed.trace) by {
      assert Release(s).trace == freed.trace + [ReleaseCommandQueue, ReleaseContext];
      CallbacksConcat(freed.trace, [ReleaseCommandQueue, ReleaseContext]);
      assert Callbacks([ReleaseCommandQueue, ReleaseContext]) == [];
    }
  }

  /**
    `release` on a valid session releases every owned buffer exactly once and
    releases nothing else, leaving no live buffer.
   */
  lemma ReleaseFreesEachBufferOnce(s: Session)
    requires Valid(s)
    ensures var r := Release(s);
      var ids := BufferSeq(s.arguments, AscendingSlots(s.arguments.Keys));
      && r.live == {}
      && ReleasedIds(r.trace) == ReleasedIds(s.trace) + ids
      && (forall b :: b in ids <==> b in OwnedBuffers(s.arguments))
      && NoDuplicates(ids)
  {
    var slots := AscendingSlots(s.arguments.Keys);
    ReleaseSegment(s);
    BufferSeqDistinct(s.arguments, slots);
    BufferSeqMembers(s.arguments, slots);
    BuffersAtEverySlot(s.arguments, slots);
  }

  /**
    `release` leaves the argument map as it was, so a second `release`
    releases every owned buffer again.
   */
  lemma SecondReleaseReleasesAgain(s: Session, b: BufferId)
    requires DistinctBuffers(s.arguments) && b in OwnedBuffers(s.arguments)
    ensures Release(s).arguments == s.arguments
    ensures var ids := BufferSeq(s.arguments, AscendingSlots(s.arguments.Keys));
      && b in ids
      && ReleasedIds(Release(s).trace) == ReleasedIds(s.trace) + ids
      && ReleasedIds(Release(Release(s)).trace) == ReleasedIds(s.trace) + ids + ids
  {
    var slots := AscendingSlots(s.arguments.Keys);
    ReleaseSegment(s);
    ReleaseSegment(Release(s));
    BufferSeqMembers(s.arguments, slots);
    BuffersAtEverySlot(s.arguments, slots);
  }
}
