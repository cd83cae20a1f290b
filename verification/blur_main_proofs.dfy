/**
  What `main` does end to end: the six registrations on a fresh session
  always succeed and keep the registry invariant; a refused device sees no
  dispatch and no release; a completed run dispatches once over the whole
  image, reads the output back and releases every buffer exactly once.
 */
module BlurMainProofs {
  import opened Results
  import opened Registry
  import opened RegistryProofs
  import opened Validation
  import opened BlurMain
  import ValidationProofs

  // ---------------------------------------------------------------- registration

  /** A run of `addArgument` calls keeps the registry invariant, whether it succeeds or stops early. */
  lemma {:induction false} AddAllKeepsValid(s: Session, specs: seq<ArgSpec>)
    requires Valid(s)
    ensures Valid(AddAll(s, specs).session)
    decreases |specs|
  {
    if specs != [] {
      var c := specs[0];
      AddArgumentKeepsValid(s, c.key, c.index, c.pointer, c.free, c.size, c.flags, c.writeBuffer);
      var first := AddArgument(s, c.key, c.index, c.pointer, c.free, c.size, c.flags, c.writeBuffer);
      if first.result.Success? {
        AddAllKeepsValid(first.session, specs[1..]);
      }
    }
  }

  /** On a fresh session the six registrations succeed and fill exactly slots 0 to 5. */
  lemma PlanFromSetup(image: Image, kernel: SmoothKernel, addrs: HostAddrs)
    ensures var st := AddAll(Setup(), Plan(image, kernel, addrs));
      && st.result.Success?
      && (forall k :: k in st.session.arguments <==> 0 <= k < 6)
  {
    var plan := Plan(image, kernel, addrs);
    PlanSlots(Setup().arguments, image, kernel, addrs);
    AddAllSlots(Setup(), plan);
  }

  /** The registration on a fresh session keeps the registry invariant. */
  lemma PlanKeepsValid(image: Image, kernel: SmoothKernel, addrs: HostAddrs)
    ensures Valid(AddAll(Setup(), Plan(image, kernel, addrs)).session)
  {
    SetupIsValid();
    AddAllKeepsValid(Setup(), Plan(image, kernel, addrs));
  }

  /** Every registered argument owns a device buffer, and every one but the output image is uploaded. */
  lemma PlanBuffers(image: Image, kernel: SmoothKernel, addrs: HostAddrs)
    ensures var st := AddAll(Setup(), Plan(image, kernel, addrs));
      forall k | k in st.session.arguments ::
        && st.session.arguments[k].buffer.Mem?
        && (st.session.arguments[k].writeBuffer <==> k != OUTPUT_SLOT)
  {
    var plan := Plan(image, kernel, addrs);
    var st := AddAll(Setup(), plan);
    PlanFromSetup(image, kernel, addrs);
    AddAllRegisters(Setup(), plan);
    assert forall i | 0 <= i < 6 :: plan[i].index == i && (plan[i].writeBuffer <==> i != 1);
    forall k | k in st.session.arguments
      ensures st.session.arguments[k].buffer.Mem?
      ensures st.session.arguments[k].writeBuffer <==> k != OUTPUT_SLOT
    {
      assert Realizes(st.result.value[k], plan[k]);
    }
  }

  /**
    The registration never uploads the output image's buffer: the only
    uploads are those of the five arguments registered with `writeBuffer` set.
   */
  lemma OutputNeverUploaded(image: Image, kernel: SmoothKernel, addrs: HostAddrs)
    ensures var st := AddAll(Setup(), Plan(image, kernel, addrs));
      && st.result.Success? && OUTPUT_SLOT in st.session.arguments
      && st.session.arguments[OUTPUT_SLOT].buffer.Mem?
      && forall i | 0 <= i < |st.session.trace| && st.session.trace[i].WriteBuffer? ::
           st.session.trace[i].buffer != st.session.arguments[OUTPUT_SLOT].buffer.id
  {
    var plan := Plan(image, kernel, addrs);
    PlanFromSetup(image, kernel, addrs);
    PlanIndexedBySlot(image, kernel, addrs);
    SetupIsValid();
    RegisteredWithoutUpload(Setup(), plan, OUTPUT_SLOT);
  }

  /**
    On a valid session whose calls include no upload, a successful run of
    `addArgument` calls at slots 0, 1, ... never uploads the buffer of an
    argument registered without `writeBuffer`.
   */
  lemma RegisteredWithoutUpload(s: Session, specs: seq<ArgSpec>, o: nat)
    requires Valid(s) && forall i | 0 <= i < |s.trace| :: !s.trace[i].WriteBuffer?
    requires forall j | 0 <= j < |specs| :: specs[j].index == j
    requires o < |specs| && !specs[o].writeBuffer
    ensures var st := AddAll(s, specs);
      st.result.Success? ==>
        && o in st.session.arguments && st.session.arguments[o].buffer.Mem?
        && forall i | 0 <= i < |st.session.trace| && st.session.trace[i].WriteBuffer? ::
             st.session.trace[i].buffer != st.session.arguments[o].buffer.id
  {
    var st := AddAll(s, specs);
    if st.result.Success? {
      assert DistinctBuffers(st.session.arguments) by {
        AddAllKeepsValid(s, specs);
      }
      AddAllRegisters(s, specs);
      AddAllUploadsOnlyFlagged(s, specs);
      UnflaggedNotUploaded(st.session.arguments, specs, st.result.value, o);
      UploadsAvoid(st.session.trace, s.trace, FlaggedBuffers(st.result.value), st.result.value[o].buffer.id);
    }
  }

  lemma PlanIndexedBySlot(image: Image, kernel: SmoothKernel, addrs: HostAddrs)
    ensures var plan := Plan(image, kernel, addrs);
      && |plan| == 6
      && (forall j | 0 <= j < |plan| :: plan[j].index == j)
      && !plan[OUTPUT_SLOT].writeBuffer
  {
  }

  /** An argument registered without an upload owns none of the uploaded buffers. */
  lemma UnflaggedNotUploaded(m: map<Slot, Arg>, specs: seq<ArgSpec>, args: seq<Arg>, o: nat)
    requires RegistersAll(m, specs, args) && DistinctBuffers(m)
    requires forall j | 0 <= j < |specs| :: specs[j].index == j
    requires o < |specs| && !specs[o].writeBuffer
    ensures o in m && m[o] == args[o] && args[o].buffer.Mem?
    ensures args[o].buffer.id !in FlaggedBuffers(args)
  {
  }

  /** A trace whose start has no upload and whose rest uploads only `ids` never uploads `b` outside `ids`. */
  lemma UploadsAvoid(t: seq<Call>, start: seq<Call>, ids: set<BufferId>, b: BufferId)
    requires |start| <= |t| && t[..|start|] == start
    requires forall i | 0 <= i < |start| :: !start[i].WriteBuffer?
    requires UploadsOnly(t[|start|..], ids) && b !in ids
    ensures forall i | 0 <= i < |t| && t[i].WriteBuffer? :: t[i].buffer != b
  {
    forall i | 0 <= i < |t| && t[i].WriteBuffer?
      ensures t[i].buffer != b
    {
      if i < |start| {
        PrefixAt(start, t, i);
      } else {
        assert t[i] == t[|start|..][i - |start|];
      }
    }
  }

  lemma SixSlots(ks: set<Slot>)
    requires forall k :: k in ks <==> 0 <= k < 6
    ensures |ks| == 6
  {
    assert ks == {0, 1, 2, 3, 4, 5};
  }

  // ---------------------------------------------------------------- before the capability check

  /** Calls made before the capability check: setup, buffer creation and upload, the build, the bindings. */
  predicate PreparationCall(c: Call)
  {
    c.CreateContext? || c.CreateCommandQueue? || c.CreateBuffer? || c.WriteBuffer? || c.BuildKernel? || c.SetKernelArg?
  }

  /** The session at the capability check is valid and holds exactly slots 0 to 5. */
  lemma PreparedValid(inputs: Inputs, addrs: HostAddrs)
    ensures Valid(Prepared(inputs, addrs))
    ensures forall k :: k in Prepared(inputs, addrs).arguments <==> 0 <= k < 6
  {
    PlanFromSetup(inputs.image, inputs.kernel, addrs);
    PlanKeepsValid(inputs.image, inputs.kernel, addrs);
    KernelBuildKeepsValid(Registration(inputs, addrs).session);
  }

  /** Up to the capability check the run makes only preparation calls, after the context and queue. */
  lemma PreparedCalls(inputs: Inputs, addrs: HostAddrs)
    ensures var t := Prepared(inputs, addrs).trace;
      && |t| >= 2 && t[..2] == [CreateContext, CreateCommandQueue]
      && forall i | 0 <= i < |t| :: PreparationCall(t[i])
  {
    var st := Registration(inputs, addrs).session;
    RegistrationCalls(inputs, addrs);
    KernelBuildCalls(st);
    KernelBuildKeepsStart(st);
  }

  /** The registration on a fresh session makes only preparation calls, after the context and queue. */
  lemma RegistrationCalls(inputs: Inputs, addrs: HostAddrs)
    ensures var t := Registration(inputs, addrs).session.trace;
      && |t| >= 2 && t[..2] == [CreateContext, CreateCommandQueue]
      && forall i | 0 <= i < |t| :: PreparationCall(t[i])
  {
    var st := AddAll(Setup(), Plan(inputs.image, inputs.kernel, addrs));
    assert Registration(inputs, addrs).session == st.session;
    BufferCallsArePreparation(Setup().trace, st.session.trace);
  }

  lemma BufferCallsArePreparation(t0: seq<Call>, t1: seq<Call>)
    requires forall i | 0 <= i < |t0| :: PreparationCall(t0[i])
    requires |t1| >= |t0| && t1[..|t0|] == t0 && BufferCallsOnly(t1[|t0|..])
    ensures forall i | 0 <= i < |t1| :: PreparationCall(t1[i])
  {
    forall i | 0 <= i < |t1|
      ensures PreparationCall(t1[i])
    {
      if i < |t0| {
        assert t1[i] == t1[..|t0|][i];
      } else {
        assert t1[i] == t1[|t0|..][i - |t0|];
      }
    }
  }

  /** Building the kernel adds only the build and the bindings. */
  lemma KernelBuildCalls(s: Session)
    requires forall i | 0 <= i < |s.trace| :: PreparationCall(s.trace[i])
    ensures var r := CreateKernel(s);
      forall i | 0 <= i < |r.trace| :: PreparationCall(r.trace[i])
  {
    var r := CreateKernel(s);
    forall i | 0 <= i < |r.trace|
      ensures PreparationCall(r.trace[i])
    {
      if i < |s.trace| {
        PrefixAt(s.trace, r.trace, i);
        assert PreparationCall(s.trace[i]);
      } else if i == |s.trace| {
        assert r.trace[i] == BuildKernel;
      } else {
        assert r.trace[i].SetKernelArg?;
      }
    }
  }

  /** Building the kernel keeps the calls made before it. */
  lemma KernelBuildKeepsStart(s: Session)
    requires |s.trace| >= 2
    ensures CreateKernel(s).trace[..2] == s.trace[..2]
  {
    PrefixKeepsStart(s.trace, CreateKernel(s).trace);
  }

  lemma PrefixKeepsStart(t0: seq<Call>, t1: seq<Call>)
    requires |t0| >= 2 && |t1| >= |t0| && t1[..|t0|] == t0
    ensures t1[..2] == t0[..2]
  {
    assert t1[..2] == t1[..|t0|][..2];
  }

  /** Building the kernel keeps the registry invariant. */
  lemma KernelBuildKeepsValid(s: Session)
    requires Valid(s)
    ensures Valid(CreateKernel(s))
  {
    ExtensionKeepsValid(s, CreateKernel(s));
  }

  /** Adding calls that create no buffer, with the registry unchanged, keeps the invariant. */
  lemma ExtensionKeepsValid(s: Session, s': Session)
    requires Valid(s)
    requires s'.arguments == s.arguments && s'.live == s.live && s'.nextBuffer == s.nextBuffer
    requires |s'.trace| >= |s.trace| && s'.trace[..|s.trace|] == s.trace
    requires forall i | |s.trace| <= i < |s'.trace| :: !s'.trace[i].CreateBuffer?
    ensures Valid(s')
  {
    forall i | 0 <= i < |s'.trace| && s'.trace[i].CreateBuffer?
      ensures s'.trace[i].buffer < s'.nextBuffer
    {
      assert s'.trace[i] == s'.trace[..|s.trace|][i];
    }
  }

  /**
    A device the capability predicate refuses ends the run at the check:
    nothing is dispatched, nothing read back, and no buffer is released,
    since the program exits without calling `release`.
   */
  lemma RefusedDeviceStopsBeforeDispatch(inputs: Inputs, addrs: HostAddrs, caps: DeviceCaps)
    requires !BlurFits(inputs.image.width, inputs.image.height, caps)
    ensures var r := Execute(inputs, addrs, caps);
      && r.Exited? && r.error == CapabilityRejected
      && r.trace[..2] == [CreateContext, CreateCommandQueue]
      && (forall i | 0 <= i < |r.trace| ::
            !r.trace[i].EnqueueNDRange? && !r.trace[i].ReadBuffer? && !r.trace[i].ReleaseMemObject? && !r.trace[i].InvokeFree?)
  {
    PreparedCalls(inputs, addrs);
    PreparationIsNotDispatch(Prepared(inputs, addrs).trace);
  }

  lemma PreparationIsNotDispatch(t: seq<Call>)
    requires forall i | 0 <= i < |t| :: PreparationCall(t[i])
    ensures forall i | 0 <= i < |t| ::
      !t[i].EnqueueNDRange? && !t[i].ReadBuffer? && !t[i].ReleaseMemObject? && !t[i].InvokeFree?
  {
    forall i | 0 <= i < |t|
      ensures !t[i].EnqueueNDRange? && !t[i].ReadBuffer? && !t[i].ReleaseMemObject? && !t[i].InvokeFree?
    {
      assert PreparationCall(t[i]);
    }
  }

  // ---------------------------------------------------------------- a completed run

  lemma {:induction false} NoReleaseCalls(t: seq<Call>)
    requires forall i | 0 <= i < |t| :: !t[i].ReleaseMemObject?
    ensures ReleasedIds(t) == []
    decreases |t|
  {
    if t != [] {
      NoReleaseCalls(t[1..]);
    }
  }

  /** Every argument at `slots` owns a buffer, so there is one id per slot. */
  lemma {:induction false} OneBufferPerSlot(m: map<Slot, Arg>, slots: seq<Slot>)
    requires forall k | k in slots :: k in m && m[k].buffer.Mem?
    ensures |BufferSeq(m, slots)| == |slots|
    decreases |slots|
  {
    if slots != [] {
      OneBufferPerSlot(m, slots[1..]);
    }
  }

  /** The dispatch and the read-back each add one call and leave the registry and its invariant as they were. */
  lemma DispatchAndRead(p: Session, out: Arg, width: nat, height: nat)
    ensures var read := ReadBack(EnqueueKernel(p, 2, GlobalWorkSize(width, height)), out, true);
      && read.arguments == p.arguments && read.live == p.live && read.nextBuffer == p.nextBuffer
      && read.trace == p.trace + [EnqueueNDRange(2, [width, height]), ReadBuffer(out.buffer, out.size, out.pointer, true)]
  {
  }

  lemma DispatchAndReadKeepValid(p: Session, out: Arg, width: nat, height: nat)
    requires Valid(p)
    ensures Valid(ReadBack(EnqueueKernel(p, 2, GlobalWorkSize(width, height)), out, true))
  {
    var read := ReadBack(EnqueueKernel(p, 2, GlobalWorkSize(width, height)), out, true);
    DispatchAndRead(p, out, width, height);
    assert read.trace[..|p.trace|] == p.trace;
    ExtensionKeepsValid(p, read);
  }

  /** No call in `t` is a dispatch. */
  predicate NoDispatch(t: seq<Call>)
  {
    forall i | 0 <= i < |t| :: !t[i].EnqueueNDRange?
  }

  /** The one dispatch in `t` is at position `n`, over a `width` x `height` range. */
  predicate OnlyDispatchAt(t: seq<Call>, n: nat, width: nat, height: nat)
  {
    && n < |t| && t[n] == EnqueueNDRange(2, [width, height])
    && forall i | 0 <= i < |t| && t[i].EnqueueNDRange? :: i == n
  }

  /**
    Every dispatch in `t` is a two-dimensional `width` x `height` range that
    the device's limits admit in both dimensions.
   */
  predicate DispatchesWithin(t: seq<Call>, width: nat, height: nat, caps: DeviceCaps)
  {
    forall i | 0 <= i < |t| && t[i].EnqueueNDRange? ::
      && t[i] == EnqueueNDRange(2, [width, height])
      && 2 <= caps.maxWorkItemDimensions
      && width <= caps.maxWorkItemSizes[0] && height <= caps.maxWorkItemSizes[1]
  }

  /** Nothing is released before the read: the preparation, the dispatch and the read release no buffer. */
  lemma NoReleaseBeforeRead(t: seq<Call>, pre: seq<Call>)
    requires forall i | 0 <= i < |pre| :: PreparationCall(pre[i])
    requires |t| >= |pre| + 2 && t[..|pre|] == pre
    requires t[|pre|].EnqueueNDRange? && t[|pre| + 1].ReadBuffer?
    ensures NoBufferReleaseBefore(t, |pre| + 2)
  {
    forall i | 0 <= i < |pre|
      ensures !t[i].ReleaseMemObject?
    {
      PreparationAt(t, pre, i);
    }
  }

  /** A trace of preparation calls, one dispatch and one read, then `release`'s calls, has that dispatch only. */
  lemma OneDispatchBetween(t: seq<Call>, pre: seq<Call>, width: nat, height: nat)
    requires forall i | 0 <= i < |pre| :: PreparationCall(pre[i])
    requires |t| >= |pre| + 2 && t[..|pre|] == pre
    requires t[|pre|] == EnqueueNDRange(2, [width, height]) && t[|pre| + 1].ReadBuffer?
    requires ReleaseCallsOnly(t[|pre| + 2..])
    ensures OnlyDispatchAt(t, |pre|, width, height)
  {
    var n := |pre|;
    forall i | 0 <= i < |t| && t[i].EnqueueNDRange?
      ensures i == n
    {
      PreparationAt(t, pre, i);
      ReleaseCallAt(t, n + 2, i);
    }
  }

  lemma PreparationAt(t: seq<Call>, pre: seq<Call>, i: int)
    ensures (&& |pre| <= |t| && t[..|pre|] == pre
             && (forall j | 0 <= j < |pre| :: PreparationCall(pre[j]))
             && 0 <= i < |pre|) ==> PreparationCall(t[i])
  {
    if |pre| <= |t| && t[..|pre|] == pre && 0 <= i < |pre| {
      PrefixAt(pre, t, i);
    }
  }

  lemma ReleaseCallAt(t: seq<Call>, k: nat, i: int)
    ensures (k <= |t| && ReleaseCallsOnly(t[k..]) && k <= i < |t|) ==> ReleaseCall(t[i])
  {
    if k <= |t| && k <= i < |t| {
      assert t[i] == t[k..][i - k];
    }
  }

  /** What follows a passed capability check dispatches once, over the whole image. */
  lemma FinishDispatchesOnce(p: Session, image: Image, out: Arg)
    requires forall i | 0 <= i < |p.trace| :: PreparationCall(p.trace[i])
    ensures OnlyDispatchAt(Finish(p, image, out).trace, |p.trace|, image.width, image.height)
  {
    OneDispatchBetween(Finish(p, image, out).trace, p.trace, image.width, image.height);
  }

  /** Nothing is released before `release`. */
  lemma NothingReleasedBeforeRelease(p: Session, out: Arg, width: nat, height: nat)
    requires forall i | 0 <= i < |p.trace| :: PreparationCall(p.trace[i])
    ensures ReleasedIds(ReadBack(EnqueueKernel(p, 2, GlobalWorkSize(width, height)), out, true).trace) == []
  {
    var read := ReadBack(EnqueueKernel(p, 2, GlobalWorkSize(width, height)), out, true);
    DispatchAndRead(p, out, width, height);
    forall i | 0 <= i < |read.trace|
      ensures !read.trace[i].ReleaseMemObject?
    {
      if i < |p.trace| {
        assert read.trace[i] == p.trace[i];
      }
    }
    NoReleaseCalls(read.trace);
  }

  /** The output handle the run reads back into: the output array, the image's size. */
  lemma OutputHandle(inputs: Inputs, addrs: HostAddrs)
    ensures var out := Registration(inputs, addrs).result.value;
      && out.pointer == addrs.output && out.size == inputs.image.size && out.buffer.Mem?
      && Registered(Prepared(inputs, addrs), out)
  {
  }

  /** Every registered argument of the prepared session owns a buffer, so `release` releases six. */
  lemma SixBuffers(inputs: Inputs, addrs: HostAddrs)
    ensures var m := Prepared(inputs, addrs).arguments;
      |BufferSeq(m, AscendingSlots(m.Keys))| == 6
  {
    var m := Prepared(inputs, addrs).arguments;
    PlanFromSetup(inputs.image, inputs.kernel, addrs);
    PlanBuffers(inputs.image, inputs.kernel, addrs);
    SixSlots(m.Keys);
    OneBufferPerSlot(m, AscendingSlots(m.Keys));
  }

  /**
    A run the device accepts dispatches one two-dimensional range of
    `width` x `height` work-items, then reads the output image back with a
    blocking read into the output array, then releases each of the six
    device buffers exactly once, leaving none live, and ends by releasing
    the queue and the context.
   */
  lemma CompletedRun(inputs: Inputs, addrs: HostAddrs, caps: DeviceCaps)
    requires BlurFits(inputs.image.width, inputs.image.height, caps)
    ensures var r := Execute(inputs, addrs, caps);
      var n := |Prepared(inputs, addrs).trace|;
      var out := Registration(inputs, addrs).result.value;
      && r.Completed?
      && |r.final.trace| >= n + 2
      && r.final.trace[..n] == Prepared(inputs, addrs).trace
      && r.final.trace[n] == EnqueueNDRange(2, [inputs.image.width, inputs.image.height])
      && r.final.trace[n + 1] == ReadBuffer(out.buffer, inputs.image.size, addrs.output, true)
      && NoBufferReleaseBefore(r.final.trace, n + 2)
      && r.final.live == {}
      && |ReleasedIds(r.final.trace)| == 6
      && NoDuplicates(ReleasedIds(r.final.trace))
      && (forall b :: b in ReleasedIds(r.final.trace) <==> b in OwnedBuffers(r.final.arguments))
      && r.final.trace[|r.final.trace| - 2..] == [ReleaseCommandQueue, ReleaseContext]
  {
    CompletedRunOrder(inputs, addrs, caps);
    CompletedRunReleases(inputs, addrs, caps);
  }

  /** A completed run: the preparation calls, the dispatch, the read, and no release before it. */
  lemma CompletedRunOrder(inputs: Inputs, addrs: HostAddrs, caps: DeviceCaps)
    requires BlurFits(inputs.image.width, inputs.image.height, caps)
    ensures var r := Execute(inputs, addrs, caps);
      var out := Registration(inputs, addrs).result.value;
      && r.Completed?
      && InOrder(r.final.trace, Prepared(inputs, addrs).trace,
                 EnqueueNDRange(2, [inputs.image.width, inputs.image.height]),
                 ReadBuffer(out.buffer, inputs.image.size, addrs.output, true))
  {
    var r := Execute(inputs, addrs, caps);
    var p := Prepared(inputs, addrs);
    var out := Registration(inputs, addrs).result.value;
    assert r.Completed? && r.final == Finish(p, inputs.image, out) by {
      CompletedIsFinish(inputs, addrs, caps);
    }
    assert out.size == inputs.image.size && out.pointer == addrs.output by {
      OutputHandle(inputs, addrs);
    }
    assert forall i | 0 <= i < |p.trace| :: PreparationCall(p.trace[i]) by {
      PreparedCalls(inputs, addrs);
    }
    OrderAfterGate(r, p, inputs.image, out, addrs.output);
  }

  /** The order of a completed run's calls, given that it is `Finish` on a prepared session. */
  lemma OrderAfterGate(r: RunResult, p: Session, image: Image, out: Arg, output: HostPtr)
    requires forall i | 0 <= i < |p.trace| :: PreparationCall(p.trace[i])
    requires r.Completed? && r.final == Finish(p, image, out)
    requires out.size == image.size && out.pointer == output
    ensures InOrder(r.final.trace, p.trace, EnqueueNDRange(2, [image.width, image.height]),
                    ReadBuffer(out.buffer, image.size, output, true))
  {
    FinishOrder(p, image, out);
  }

  /** A run the device accepts is `Finish` on the prepared session. */
  lemma CompletedIsFinish(inputs: Inputs, addrs: HostAddrs, caps: DeviceCaps)
    requires BlurFits(inputs.image.width, inputs.image.height, caps)
    ensures var r := Execute(inputs, addrs, caps);
      r.Completed? && r.final == Finish(Prepared(inputs, addrs), inputs.image, Registration(inputs, addrs).result.value)
  {
  }

  /**
    `t` starts with the calls `pre`, then `dispatch`, then `read`, and
    releases no buffer before the read.
   */
  predicate InOrder(t: seq<Call>, pre: seq<Call>, dispatch: Call, read: Call)
  {
    && |t| >= |pre| + 2
    && t[..|pre|] == pre
    && t[|pre|] == dispatch
    && t[|pre| + 1] == read
    && NoBufferReleaseBefore(t, |pre| + 2)
  }

  /** No buffer is released among the first `k` calls of `t`. */
  predicate NoBufferReleaseBefore(t: seq<Call>, k: nat)
  {
    forall i | 0 <= i < k && i < |t| :: !t[i].ReleaseMemObject?
  }

  /** What follows a passed gate: the dispatch, the read, and no buffer released before them. */
  lemma FinishOrder(p: Session, image: Image, out: Arg)
    requires forall i | 0 <= i < |p.trace| :: PreparationCall(p.trace[i])
    ensures var t := Finish(p, image, out).trace;
      var n := |p.trace|;
      && |t| >= n + 2 && t[..n] == p.trace
      && t[n] == EnqueueNDRange(2, [image.width, image.height])
      && t[n + 1] == ReadBuffer(out.buffer, out.size, out.pointer, true)
      && NoBufferReleaseBefore(t, n + 2)
  {
    NoReleaseBeforeRead(Finish(p, image, out).trace, p.trace);
  }

  /** A completed run releases each of the six buffers once, leaves none live and ends with the queue and context. */
  lemma CompletedRunReleases(inputs: Inputs, addrs: HostAddrs, caps: DeviceCaps)
    requires BlurFits(inputs.image.width, inputs.image.height, caps)
    ensures var r := Execute(inputs, addrs, caps);
      && r.Completed?
      && r.final.live == {}
      && |ReleasedIds(r.final.trace)| == 6
      && NoDuplicates(ReleasedIds(r.final.trace))
      && (forall b :: b in ReleasedIds(r.final.trace) <==> b in OwnedBuffers(r.final.arguments))
      && r.final.trace[|r.final.trace| - 2..] == [ReleaseCommandQueue, ReleaseContext]
  {
    var p := Prepared(inputs, addrs);
    var out := Registration(inputs, addrs).result.value;
    var w, h := inputs.image.width, inputs.image.height;
    var read := ReadBack(EnqueueKernel(p, 2, GlobalWorkSize(w, h)), out, true);
    assert Execute(inputs, addrs, caps) == Completed(Release(read));
    PreparedValid(inputs, addrs);
    PreparedCalls(inputs, addrs);
    OutputHandle(inputs, addrs);
    DispatchAndRead(p, out, w, h);
    DispatchAndReadKeepValid(p, out, w, h);
    NothingReleasedBeforeRelease(p, out, w, h);
    ReleaseFreesEachBufferOnce(read);
    SixBuffers(inputs, addrs);
  }

  /**
    A run the device accepts hands each of the two host arrays with a
    callback back exactly once, at release: the decoded pixels to
    `stbi_image_free`, then the output array to `free`. No other callback runs.
   */
  lemma CompletedRunFreesHostArrays(inputs: Inputs, addrs: HostAddrs, caps: DeviceCaps)
    requires BlurFits(inputs.image.width, inputs.image.height, caps)
    ensures var r := Execute(inputs, addrs, caps);
      && r.Completed?
      && Callbacks(r.final.trace) == [InvokeFree(STBI_IMAGE_FREE, inputs.image.data), InvokeFree(C_FREE, addrs.output)]
  {
    var p := Prepared(inputs, addrs);
    var out := Registration(inputs, addrs).result.value;
    var w, h := inputs.image.width, inputs.image.height;
    var read := ReadBack(EnqueueKernel(p, 2, GlobalWorkSize(w, h)), out, true);
    assert Execute(inputs, addrs, caps) == Completed(Release(read));
    PreparedRunsNoCallback(inputs, addrs);
    PreparedDueCallbacks(inputs, addrs);
    DispatchAndRead(p, out, w, h);
    AfterReadCallbacks(p, read, EnqueueNDRange(2, [w, h]), ReadBuffer(out.buffer, out.size, out.pointer, true));
  }

  /** Release after two calls that run no callback runs exactly the registered callbacks. */
  lemma AfterReadCallbacks(p: Session, read: Session, c1: Call, c2: Call)
    requires Callbacks(p.trace) == [] && read.arguments == p.arguments
    requires read.trace == p.trace + [c1, c2] && !c1.InvokeFree? && !c2.InvokeFree?
    ensures Callbacks(Release(read).trace) == DueCallbacks(p.arguments, AscendingSlots(p.arguments.Keys))
  {
    CallbacksConcat(p.trace, [c1, c2]);
    assert Callbacks([c1, c2]) == [] by {
      assert [c1, c2][1..] == [c2];
      assert [c2][1..] == [];
      assert Callbacks([c2]) == [];
    }
    ReleaseRunsEachCallbackOnce(read);
  }

  /** Up to the capability check no callback runs. */
  lemma PreparedRunsNoCallback(inputs: Inputs, addrs: HostAddrs)
    ensures Callbacks(Prepared(inputs, addrs).trace) == []
  {
    var t := Prepared(inputs, addrs).trace;
    PreparedCalls(inputs, addrs);
    PreparationRunsNoCallback(t);
  }

  lemma PreparationRunsNoCallback(t: seq<Call>)
    requires forall i | 0 <= i < |t| :: PreparationCall(t[i])
    ensures Callbacks(t) == []
  {
    NoCallbacks(t);
  }

  /** The prepared arguments carry two callbacks: the pixels' and the output array's. */
  lemma PreparedDueCallbacks(inputs: Inputs, addrs: HostAddrs)
    ensures var m := Prepared(inputs, addrs).arguments;
      DueCallbacks(m, AscendingSlots(m.Keys)) ==
        [InvokeFree(STBI_IMAGE_FREE, inputs.image.data), InvokeFree(C_FREE, addrs.output)]
  {
    var m := AddAll(Setup(), Plan(inputs.image, inputs.kernel, addrs)).session.arguments;
    assert Prepared(inputs, addrs).arguments == m;
    PlanFromSetup(inputs.image, inputs.kernel, addrs);
    PlanCallbacks(inputs.image, inputs.kernel, addrs);
    DueAtSixSlots(m);
  }

  /** On slots 0 to 5, the callbacks due in ascending order are those at 0, 1, 2, 3, 4, 5. */
  lemma DueAtSixSlots(m: map<Slot, Arg>)
    requires forall k :: k in m <==> 0 <= k < 6
    ensures forall k | k in [0, 1, 2, 3, 4, 5] :: k in m
    ensures DueCallbacks(m, AscendingSlots(m.Keys)) == DueCallbacks(m, [0, 1, 2, 3, 4, 5])
  {
    SlotsZeroToFive(m.Keys);
  }

  /** A trace of calls none of which is a callback runs no callback. */
  lemma {:induction false} NoCallbacks(t: seq<Call>)
    requires forall i | 0 <= i < |t| :: !t[i].InvokeFree?
    ensures Callbacks(t) == []
    decreases |t|
  {
    if t != [] {
      NoCallbacks(t[1..]);
    }
  }

  /** Six registered slots 0 to 5 are visited in the order 0, 1, 2, 3, 4, 5. */
  lemma SlotsZeroToFive(ks: set<Slot>)
    requires forall k :: k in ks <==> 0 <= k < 6
    ensures AscendingSlots(ks) == [0, 1, 2, 3, 4, 5]
  {
    SixSlots(ks);
    var r := AscendingSlots(ks);
    assert r[0] in ks && r[5] in ks;
    AscendingSix(r);
  }

  /** Six strictly ascending slots from 0 to 5 are 0, 1, 2, 3, 4, 5. */
  lemma AscendingSix(r: seq<Slot>)
    requires |r| == 6 && r[0] >= 0 && r[5] < 6
    requires forall i, j | 0 <= i < j < |r| :: r[i] < r[j]
    ensures r == [0, 1, 2, 3, 4, 5]
  {
    assert r[0] < r[1] && r[1] < r[2] && r[2] < r[3] && r[3] < r[4] && r[4] < r[5];
  }

  /** Of the six registrations, only the pixels and the output array carry a callback. */
  lemma PlanCallbacks(image: Image, kernel: SmoothKernel, addrs: HostAddrs)
    ensures var m := AddAll(Setup(), Plan(image, kernel, addrs)).session.arguments;
      && (forall k | 0 <= k < 6 :: k in m)
      && DueCallbacks(m, [0, 1, 2, 3, 4, 5]) ==
           [InvokeFree(STBI_IMAGE_FREE, image.data), InvokeFree(C_FREE, addrs.output)]
  {
    var plan := Plan(image, kernel, addrs);
    var st := AddAll(Setup(), plan);
    PlanFromSetup(image, kernel, addrs);
    PlanBuffers(image, kernel, addrs);
    AddAllRegisters(Setup(), plan);
    PlanIndexedBySlot(image, kernel, addrs);
    RegisteredCallbacks(st.session.arguments, plan, st.result.value, STBI_IMAGE_FREE, image.data, C_FREE, addrs.output);
  }

  /** Six calls at slots 0 to 5 of which only the first two carry a callback leave those two due. */
  lemma RegisteredCallbacks(m: map<Slot, Arg>, specs: seq<ArgSpec>, args: seq<Arg>,
                            f0: Disposer, p0: HostPtr, f1: Disposer, p1: HostPtr)
    requires RegistersAll(m, specs, args) && |specs| == 6
    requires forall i | 0 <= i < |specs| :: specs[i].index == i
    requires forall k | k in m :: m[k].buffer.Mem?
    requires specs[0].free == Some(f0) && specs[0].pointer == p0
    requires specs[1].free == Some(f1) && specs[1].pointer == p1
    requires specs[2].free.None? && specs[3].free.None? && specs[4].free.None? && specs[5].free.None?
    ensures forall k | 0 <= k < 6 :: k in m
    ensures DueCallbacks(m, [0, 1, 2, 3, 4, 5]) == [InvokeFree(f0, p0), InvokeFree(f1, p1)]
  {
    assert forall i | 0 <= i < 6 :: m[i] == args[i] && Realizes(m[i], specs[i]) by {
      forall i | 0 <= i < 6
        ensures m[i] == args[i] && Realizes(m[i], specs[i])
      {
        assert specs[i].index == i;
      }
    }
    DueCallbacksOfSix(m);
  }

  /** The callbacks due at slots 0 to 5 when only slots 0 and 1 carry one. */
  lemma DueCallbacksOfSix(m: map<Slot, Arg>)
    requires forall k | 0 <= k < 6 :: k in m
    requires m[0].buffer.Mem? && m[0].free.Some? && m[1].buffer.Mem? && m[1].free.Some?
    requires m[2].free.None? && m[3].free.None? && m[4].free.None? && m[5].free.None?
    ensures DueCallbacks(m, [0, 1, 2, 3, 4, 5]) ==
      [InvokeFree(m[0].free.value, m[0].pointer), InvokeFree(m[1].free.value, m[1].pointer)]
  {
    assert [5][1..] == [];
    assert DueCallbacks(m, [5]) == [];
    assert [4, 5][1..] == [5];
    assert DueCallbacks(m, [4, 5]) == [];
    assert [3, 4, 5][1..] == [4, 5];
    assert DueCallbacks(m, [3, 4, 5]) == [];
    assert [2, 3, 4, 5][1..] == [3, 4, 5];
    assert DueCallbacks(m, [2, 3, 4, 5]) == [];
    assert [1, 2, 3, 4, 5][1..] == [2, 3, 4, 5];
    assert [0, 1, 2, 3, 4, 5][1..] == [1, 2, 3, 4, 5];
  }

  /**
    Every dispatch of a run on accepted inputs is a two-dimensional range
    over the image that fits the device's limits in each dimension; when the
    device has fewer than two dimensions or either extent exceeds its limit
    there is no dispatch, and a completed run dispatches.
   */
  lemma ExecuteDispatchWithinLimits(inputs: Inputs, addrs: HostAddrs, caps: DeviceCaps)
    ensures var t := Execute(inputs, addrs, caps).Calls();
      && DispatchesWithin(t, inputs.image.width, inputs.image.height, caps)
      && ((caps.maxWorkItemDimensions < 2
           || inputs.image.width > caps.maxWorkItemSizes[0]
           || inputs.image.height > caps.maxWorkItemSizes[1]) ==> NoDispatch(t))
      && (Execute(inputs, addrs, caps).Completed? ==> !NoDispatch(t))
  {
    if BlurFits(inputs.image.width, inputs.image.height, caps) {
      PassedGateDispatches(inputs, addrs, caps);
    } else {
      RefusedGateNoDispatch(inputs, addrs, caps);
    }
  }

  lemma PassedGateDispatches(inputs: Inputs, addrs: HostAddrs, caps: DeviceCaps)
    requires BlurFits(inputs.image.width, inputs.image.height, caps)
    ensures var t := Execute(inputs, addrs, caps).Calls();
      DispatchesWithin(t, inputs.image.width, inputs.image.height, caps) && !NoDispatch(t)
  {
    var p := Prepared(inputs, addrs);
    var out := Registration(inputs, addrs).result.value;
    PreparedCalls(inputs, addrs);
    assert Execute(inputs, addrs, caps).Calls() == Finish(p, inputs.image, out).trace;
    FinishDispatchesOnce(p, inputs.image, out);
    GatedDispatch(Finish(p, inputs.image, out).trace, |p.trace|, inputs.image.width, inputs.image.height, caps);
  }

  /** A sole dispatch over a range the device admits is within its limits. */
  lemma GatedDispatch(t: seq<Call>, n: nat, width: nat, height: nat, caps: DeviceCaps)
    requires OnlyDispatchAt(t, n, width, height) && BlurFits(width, height, caps)
    ensures DispatchesWithin(t, width, height, caps) && !NoDispatch(t)
  {
    assert t[n].EnqueueNDRange?;
  }

  lemma RefusedGateNoDispatch(inputs: Inputs, addrs: HostAddrs, caps: DeviceCaps)
    requires !BlurFits(inputs.image.width, inputs.image.height, caps)
    ensures var t := Execute(inputs, addrs, caps).Calls();
      && Execute(inputs, addrs, caps).Exited?
      && NoDispatch(t) && DispatchesWithin(t, inputs.image.width, inputs.image.height, caps)
  {
    var p := Prepared(inputs, addrs);
    PreparedCalls(inputs, addrs);
    assert Execute(inputs, addrs, caps).Calls() == p.trace;
    PreparationIsNotDispatch(p.trace);
  }

  // ---------------------------------------------------------------- the whole program

  /**
    The capability gate guards the dispatch: every dispatch of a run has the
    image's width and height as its global range, and both are within the
    device's per-dimension work-item limits; when the device has fewer than
    two dimensions or either extent exceeds its limit, no dispatch is made.
   */
  lemma DispatchWithinLimits(args: seq<string>, decoded: Option<Decoded>, addrs: HostAddrs, caps: DeviceCaps)
    ensures var t := Run(args, decoded, addrs, caps).Calls();
      && (decoded.None? ==> t == [])
      && (decoded.Some? ==> DispatchesWithin(t, decoded.value.width, decoded.value.height, caps))
      && ((decoded.Some? &&
           (caps.maxWorkItemDimensions < 2
            || decoded.value.width > caps.maxWorkItemSizes[0]
            || decoded.value.height > caps.maxWorkItemSizes[1])) ==> NoDispatch(t))
      && (Run(args, decoded, addrs, caps).Completed? ==> !NoDispatch(t))
  {
    var loaded := LoadInputs(args, decoded);
    if loaded.Success? {
      var inputs := loaded.value;
      assert decoded.Some? && inputs.image.width == decoded.value.width && inputs.image.height == decoded.value.height;
      assert Run(args, decoded, addrs, caps) == Execute(inputs, addrs, caps);
      ExecuteDispatchWithinLimits(inputs, addrs, caps);
    } else {
      assert Run(args, decoded, addrs, caps).Calls() == [];
    }
  }

  /** With no filter argument the default filter is used and accepted, so only the image and the device can stop the run. */
  lemma DefaultFilterRun(file: string, decoded: Option<Decoded>, addrs: HostAddrs, caps: DeviceCaps)
    ensures Run([file], decoded, addrs, caps).Completed? <==>
      && decoded.Some? && decoded.value.channels == SUPPORTED_CHANNELS
      && BlurFits(decoded.value.width, decoded.value.height, caps)
  {
    ValidationProofs.DefaultKernelAccepted();
  }
}
