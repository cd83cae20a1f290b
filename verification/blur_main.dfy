/**
  The host program's `main`: the command line, the image and the filter are
  checked first, then the six kernel arguments are registered in slot order,
  the kernel is built and bound, the device's limits are checked against the
  image, one two-dimensional range is dispatched, the output buffer is read
  back and everything is released.
 */
module BlurMain {
  import opened Results
  import opened Registry
  import opened Validation

  /** `stbi_image_free`, the callback that owns the decoded input pixels. */
  const STBI_IMAGE_FREE := Disposer("stbi_image_free")

  /**
    Host addresses `main` hands to the registry besides the decoded pixels:
    the `malloc`ed output array, the image's width and height fields, and the
    filter's tap array and dimension field.
   */
  datatype HostAddrs = HostAddrs(
    output: HostPtr,
    width: HostPtr,
    height: HostPtr,
    taps: HostPtr,
    dimension: HostPtr)

  /** The parameters of one `addArgument` call. */
  datatype ArgSpec = ArgSpec(
    key: string,
    index: Slot,
    pointer: HostPtr,
    free: Option<Disposer>,
    size: nat,
    flags: nat,
    writeBuffer: bool)

  /** `arg` is a buffer argument carrying exactly the parameters of `spec`. */
  predicate Realizes(arg: Arg, spec: ArgSpec)
  {
    && arg.buffer.Mem?
    && arg == Arg(spec.key, spec.index, spec.pointer, spec.free, spec.size, spec.flags, spec.writeBuffer, arg.buffer)
  }

  /** The slots of `specs`. */
  function SlotsOf(specs: seq<ArgSpec>): set<Slot>
  {
    set i | 0 <= i < |specs| :: specs[i].index
  }

  /** Every slot of `specs` is free in `m`, and no two calls name the same slot. */
  predicate FreshSlots(m: map<Slot, Arg>, specs: seq<ArgSpec>)
  {
    && (forall i | 0 <= i < |specs| :: specs[i].index !in m)
    && (forall i, j | 0 <= i < j < |specs| :: specs[i].index != specs[j].index)
  }

  /** Every call in `t` creates or fills a buffer. */
  predicate BufferCallsOnly(t: seq<Call>)
  {
    forall i | 0 <= i < |t| :: t[i].CreateBuffer? || t[i].WriteBuffer?
  }

  /**
    A run of `addArgument` calls, in order; the first refused call stops the
    run (the registry throws), leaving what was registered before it.
   */
  function AddAll(s: Session, specs: seq<ArgSpec>): (r: Step<seq<Arg>>)
    ensures r.result.Success? <==> FreshSlots(s.arguments, specs)
    ensures r.result.Failure? ==> r.result.error.DuplicateSlot? && r.result.error.slot in SlotsOf(specs)
    ensures forall k | k in s.arguments :: k in r.session.arguments && r.session.arguments[k] == s.arguments[k]
    ensures |r.session.trace| >= |s.trace| && r.session.trace[..|s.trace|] == s.trace
    ensures BufferCallsOnly(r.session.trace[|s.trace|..])
    ensures r.session.program == s.program && r.session.kernel == s.kernel
    ensures r.result.Success? ==> |r.result.value| == |specs|
    decreases |specs|
  {
    if specs == [] then Step(s, Success([]))
    else
      var c := specs[0];
      var first := AddArgument(s, c.key, c.index, c.pointer, c.free, c.size, c.flags, c.writeBuffer);
      if first.result.Failure? then
        assert c.index in SlotsOf(specs);
        Step(first.session, Failure(first.result.error))
      else
        var arg := first.result.value;
        var rest := AddAll(first.session, specs[1..]);
        SlotsOfCons(specs);
        FreshSlotsCons(s.arguments, specs, arg);
        if rest.result.Failure? then
          AddArgumentCallsBuffers(s, c);
          BufferCallsExtend(s.trace, first.session.trace, rest.session.trace);
          Step(rest.session, Failure(rest.result.error))
        else
          var added := [arg] + rest.result.value;
          AddArgumentCallsBuffers(s, c);
          BufferCallsExtend(s.trace, first.session.trace, rest.session.trace);
          Step(rest.session, Success(added))
  }

  /** `args[i]` carries the parameters of `specs[i]` and is the entry of `m` at that call's slot. */
  predicate RegistersAll(m: map<Slot, Arg>, specs: seq<ArgSpec>, args: seq<Arg>)
  {
    && |args| == |specs|
    && forall i | 0 <= i < |specs| ::
         && Realizes(args[i], specs[i])
         && specs[i].index in m
         && m[specs[i].index] == args[i]
  }

  lemma RegistersAllCons(m: map<Slot, Arg>, specs: seq<ArgSpec>, arg: Arg, args: seq<Arg>)
    requires specs != []
    requires Realizes(arg, specs[0]) && specs[0].index in m && m[specs[0].index] == arg
    requires RegistersAll(m, specs[1..], args)
    ensures RegistersAll(m, specs, [arg] + args)
  {
    var all := [arg] + args;
    forall i | 1 <= i < |specs|
      ensures Realizes(all[i], specs[i]) && specs[i].index in m && m[specs[i].index] == all[i]
    {
      assert all[i] == args[i - 1] && specs[i] == specs[1..][i - 1];
    }
  }

  /**
    A run that succeeds registers every call's argument at its slot, with
    exactly the call's parameters.
   */
  lemma {:induction false} AddAllRegisters(s: Session, specs: seq<ArgSpec>)
    ensures var r := AddAll(s, specs);
      r.result.Success? ==> RegistersAll(r.session.arguments, specs, r.result.value)
    decreases |specs|
  {
    var r := AddAll(s, specs);
    if specs != [] && r.result.Success? {
      var c := specs[0];
      var first := AddArgument(s, c.key, c.index, c.pointer, c.free, c.size, c.flags, c.writeBuffer);
      var rest := AddAll(first.session, specs[1..]);
      AddAllRegisters(first.session, specs[1..]);
      RegistersAllCons(rest.session.arguments, specs, first.result.value, rest.result.value);
    }
  }

  /** A run that succeeds adds exactly its own slots. */
  lemma {:induction false} AddAllSlots(s: Session, specs: seq<ArgSpec>)
    ensures var r := AddAll(s, specs);
      r.result.Success? ==> r.session.arguments.Keys == s.arguments.Keys + SlotsOf(specs)
    decreases |specs|
  {
    var r := AddAll(s, specs);
    if specs != [] && r.result.Success? {
      var c := specs[0];
      var first := AddArgument(s, c.key, c.index, c.pointer, c.free, c.size, c.flags, c.writeBuffer);
      AddAllSlots(first.session, specs[1..]);
      SlotsOfCons(specs);
    }
  }

  /** A run that succeeds uploads the host data of every call that asks for it. */
  lemma {:induction false} AddAllUploads(s: Session, specs: seq<ArgSpec>)
    ensures var r := AddAll(s, specs);
      r.result.Success? ==>
        && |r.result.value| == |specs|
        && forall i | 0 <= i < |specs| && specs[i].writeBuffer ::
             && r.result.value[i].buffer.Mem?
             && WriteBuffer(r.result.value[i].buffer.id, specs[i].size, specs[i].pointer) in r.session.trace
    decreases |specs|
  {
    var r := AddAll(s, specs);
    if specs != [] && r.result.Success? {
      var c := specs[0];
      var first := AddArgument(s, c.key, c.index, c.pointer, c.free, c.size, c.flags, c.writeBuffer);
      var arg := first.result.value;
      var rest := AddAll(first.session, specs[1..]);
      AddAllUploads(first.session, specs[1..]);
      assert r.session.trace == rest.session.trace && r.result.value == [arg] + rest.result.value;
      forall i | 1 <= i < |specs| && specs[i].writeBuffer
        ensures && r.result.value[i].buffer.Mem?
                && WriteBuffer(r.result.value[i].buffer.id, specs[i].size, specs[i].pointer) in r.session.trace
      {
        assert r.result.value[i] == rest.result.value[i - 1] && specs[i] == specs[1..][i - 1];
      }
      if c.writeBuffer {
        assert WriteBuffer(arg.buffer.id, c.size, c.pointer) in rest.session.trace by {
          var p := |s.trace| + 1;
          PrefixAt(first.session.trace, rest.session.trace, p);
        }
      }
    }
  }

  /** The buffers of the arguments in `args` that ask for an upload. */
  function FlaggedBuffers(args: seq<Arg>): set<BufferId>
  {
    set j | 0 <= j < |args| && args[j].writeBuffer && args[j].buffer.Mem? :: args[j].buffer.id
  }

  /** Every upload in `t` writes one of the buffers `ids`. */
  predicate UploadsOnly(t: seq<Call>, ids: set<BufferId>)
  {
    forall i | 0 <= i < |t| && t[i].WriteBuffer? :: t[i].buffer in ids
  }

  /**
    A run that succeeds uploads nothing but the buffers of the calls that ask
    for it: a call with `writeBuffer` unset gets a buffer and no upload.
   */
  lemma {:induction false} AddAllUploadsOnlyFlagged(s: Session, specs: seq<ArgSpec>)
    ensures var r := AddAll(s, specs);
      r.result.Success? ==> UploadsOnly(r.session.trace[|s.trace|..], FlaggedBuffers(r.result.value))
    decreases |specs|
  {
    var r := AddAll(s, specs);
    if specs == [] {
      assert r.session.trace[|s.trace|..] == [];
    } else if r.result.Success? {
      var c := specs[0];
      var first := AddArgument(s, c.key, c.index, c.pointer, c.free, c.size, c.flags, c.writeBuffer);
      var arg := first.result.value;
      var rest := AddAll(first.session, specs[1..]);
      AddAllUploadsOnlyFlagged(first.session, specs[1..]);
      assert r.session.trace == rest.session.trace && r.result.value == [arg] + rest.result.value;
      var ids := FlaggedBuffers(r.result.value);
      FlaggedCons(arg, rest.result.value);
      AddArgumentUploadsOwn(s, c);
      UploadsOnlyWiden(first.session.trace[|s.trace|..], if c.writeBuffer then {arg.buffer.id} else {}, ids);
      UploadsOnlyWiden(rest.session.trace[|first.session.trace|..], FlaggedBuffers(rest.result.value), ids);
      UploadsOnlyExtend(s.trace, first.session.trace, rest.session.trace, ids);
    }
  }

  lemma FlaggedCons(arg: Arg, args: seq<Arg>)
    ensures FlaggedBuffers(args) <= FlaggedBuffers([arg] + args)
    ensures arg.writeBuffer && arg.buffer.Mem? ==> arg.buffer.id in FlaggedBuffers([arg] + args)
  {
    var all := [arg] + args;
    forall b | b in FlaggedBuffers(args)
      ensures b in FlaggedBuffers(all)
    {
      var j :| 0 <= j < |args| && args[j].writeBuffer && args[j].buffer.Mem? && args[j].buffer.id == b;
      assert all[j + 1] == args[j];
    }
    assert all[0] == arg;
  }

  /** A successful `addArgument` uploads at most its own buffer, and only when asked to. */
  lemma AddArgumentUploadsOwn(s: Session, c: ArgSpec)
    ensures var r := AddArgument(s, c.key, c.index, c.pointer, c.free, c.size, c.flags, c.writeBuffer);
      r.result.Success? ==>
        && |r.session.trace| >= |s.trace|
        && UploadsOnly(r.session.trace[|s.trace|..], if c.writeBuffer then {r.result.value.buffer.id} else {})
  {
  }

  lemma UploadsOnlyWiden(t: seq<Call>, ids: set<BufferId>, wider: set<BufferId>)
    requires UploadsOnly(t, ids) && ids <= wider
    ensures UploadsOnly(t, wider)
  {
  }

  /** Extensions of a trace that upload only `ids` compose. */
  lemma UploadsOnlyExtend(t0: seq<Call>, t1: seq<Call>, t2: seq<Call>, ids: set<BufferId>)
    requires |t0| <= |t1| <= |t2| && t1[..|t0|] == t0 && t2[..|t1|] == t1
    requires UploadsOnly(t1[|t0|..], ids) && UploadsOnly(t2[|t1|..], ids)
    ensures UploadsOnly(t2[|t0|..], ids)
  {
    forall i | 0 <= i < |t2| - |t0| && t2[|t0|..][i].WriteBuffer?
      ensures t2[|t0|..][i].buffer in ids
    {
      if |t0| + i < |t1| {
        assert t2[|t0|..][i] == t1[|t0|..][i] by {
          PrefixAt(t1, t2, |t0| + i);
        }
      } else {
        assert t2[|t0|..][i] == t2[|t1|..][|t0| + i - |t1|];
      }
    }
  }

  /** A successful `addArgument` only creates and fills its buffer. */
  lemma AddArgumentCallsBuffers(s: Session, c: ArgSpec)
    ensures var r := AddArgument(s, c.key, c.index, c.pointer, c.free, c.size, c.flags, c.writeBuffer);
      && |r.session.trace| >= |s.trace| && r.session.trace[..|s.trace|] == s.trace
      && BufferCallsOnly(r.session.trace[|s.trace|..])
  {
  }

  /** Buffer-only extensions of a trace compose. */
  lemma BufferCallsExtend(t0: seq<Call>, t1: seq<Call>, t2: seq<Call>)
    requires |t0| <= |t1| <= |t2| && t1[..|t0|] == t0 && t2[..|t1|] == t1
    requires BufferCallsOnly(t1[|t0|..]) && BufferCallsOnly(t2[|t1|..])
    ensures t2[..|t0|] == t0 && BufferCallsOnly(t2[|t0|..])
  {
    assert t2[..|t1|][..|t0|] == t2[..|t0|];
    forall i | 0 <= i < |t2| - |t0|
      ensures t2[|t0|..][i].CreateBuffer? || t2[|t0|..][i].WriteBuffer?
    {
      if |t0| + i < |t1| {
        assert t2[|t0|..][i] == t1[|t0|..][i];
      } else {
        assert t2[|t0|..][i] == t2[|t1|..][|t0| + i - |t1|];
      }
    }
  }

  lemma SlotsOfCons(specs: seq<ArgSpec>)
    requires specs != []
    ensures SlotsOf(specs) == {specs[0].index} + SlotsOf(specs[1..])
  {
    forall k | k in SlotsOf(specs)
      ensures k in {specs[0].index} + SlotsOf(specs[1..])
    {
      var i :| 0 <= i < |specs| && specs[i].index == k;
      if i > 0 {
        assert specs[1..][i - 1] == specs[i];
      }
    }
    forall k | k in SlotsOf(specs[1..])
      ensures k in SlotsOf(specs)
    {
      var i :| 0 <= i < |specs[1..]| && specs[1..][i].index == k;
      assert specs[i + 1] == specs[1..][i];
    }
  }

  /** The slots of a run are fresh when the first is, and the rest are fresh once the first is taken. */
  lemma FreshSlotsCons(m: map<Slot, Arg>, specs: seq<ArgSpec>, a: Arg)
    requires specs != []
    ensures FreshSlots(m, specs) <==>
      specs[0].index !in m && FreshSlots(m[specs[0].index := a], specs[1..])
  {
    var m' := m[specs[0].index := a];
    var tail := specs[1..];
    if FreshSlots(m, specs) {
      forall i | 0 <= i < |tail|
        ensures tail[i].index !in m'
      {
        assert tail[i] == specs[i + 1];
      }
      forall i, j | 0 <= i < j < |tail|
        ensures tail[i].index != tail[j].index
      {
        assert tail[i] == specs[i + 1] && tail[j] == specs[j + 1];
      }
    }
    if specs[0].index !in m && FreshSlots(m', tail) {
      forall i | 0 <= i < |specs|
        ensures specs[i].index !in m
      {
        if i > 0 {
          assert specs[i] == tail[i - 1];
        }
      }
      forall i, j | 0 <= i < j < |specs|
        ensures specs[i].index != specs[j].index
      {
        assert specs[j] == tail[j - 1];
        if i > 0 {
          assert specs[i] == tail[i - 1];
        }
      }
    }
  }

  /** The six `addArgument` calls of `main`, in the order it makes them. */
  function Plan(image: Image, kernel: SmoothKernel, addrs: HostAddrs): (r: seq<ArgSpec>)
    ensures |r| == 6
    ensures forall i | 0 <= i < |r| :: r[i].index == i
    ensures forall i | 0 <= i < |r| :: r[i].writeBuffer <==> i != OUTPUT_SLOT
    ensures forall i | 0 <= i < |r| :: r[i].flags == (if i == OUTPUT_SLOT then CL_MEM_WRITE_ONLY else CL_MEM_READ_ONLY)
    ensures forall i | 2 <= i < |r| :: r[i].free == None
    ensures r[0].pointer == image.data && r[0].free == Some(STBI_IMAGE_FREE) && r[0].size == image.size
    ensures r[1].pointer == addrs.output && r[1].free == Some(C_FREE) && r[1].size == image.size
    ensures r[4].pointer == addrs.taps && r[4].size == kernel.size
    ensures r[2].size == r[3].size == r[5].size == SIZEOF_CL_INT
  {
    [ ArgSpec("imageInput", 0, image.data, Some(STBI_IMAGE_FREE), image.size, CL_MEM_READ_ONLY, true),
      ArgSpec("imageOutput", 1, addrs.output, Some(C_FREE), image.size, CL_MEM_WRITE_ONLY, false),
      ArgSpec("width", 2, addrs.width, None, SIZEOF_CL_INT, CL_MEM_READ_ONLY, true),
      ArgSpec("height", 3, addrs.height, None, SIZEOF_CL_INT, CL_MEM_READ_ONLY, true),
      ArgSpec("smoothKernel", 4, addrs.taps, None, kernel.size, CL_MEM_READ_ONLY, true),
      ArgSpec("smoothKernelDimension", 5, addrs.dimension, None, SIZEOF_CL_INT, CL_MEM_READ_ONLY, true) ]
  }

  /** The slot of the output image, the one argument read back. */
  const OUTPUT_SLOT: Slot := 1

  /**
    The argument registration of `main`. It succeeds exactly when slots 0 to 5
    are all free, and hands back the output image's argument, registered at
    slot 1 as a write-only buffer of the image's size with no upload.
   */
  function RegisterPlan(s: Session, image: Image, kernel: SmoothKernel, addrs: HostAddrs): (r: Step<Arg>)
    ensures r.result.Success? <==> forall k: Slot | 0 <= k < 6 :: k !in s.arguments
    ensures r.result.Failure? ==> r.result.error.DuplicateSlot? && 0 <= r.result.error.slot < 6
    ensures r.result.Success? ==>
      var out := r.result.value;
      && Registered(r.session, out)
      && out.index == OUTPUT_SLOT && out.buffer.Mem?
      && out.pointer == addrs.output && out.size == image.size
      && out.flags == CL_MEM_WRITE_ONLY && !out.writeBuffer
    ensures |r.session.trace| >= |s.trace| && r.session.trace[..|s.trace|] == s.trace
  {
    var st := AddAll(s, Plan(image, kernel, addrs));
    PlanSlots(s.arguments, image, kernel, addrs);
    if st.result.Failure? then Step(st.session, Failure(st.result.error))
    else
      PlanRegistersOutput(s, image, kernel, addrs);
      Step(st.session, Success(st.result.value[OUTPUT_SLOT]))
  }

  /** The second call's argument is the output image's, registered at slot 1. */
  lemma PlanRegistersOutput(s: Session, image: Image, kernel: SmoothKernel, addrs: HostAddrs)
    ensures var st := AddAll(s, Plan(image, kernel, addrs));
      st.result.Success? ==>
        var out := st.result.value[OUTPUT_SLOT];
        && Registered(st.session, out)
        && out.index == OUTPUT_SLOT && out.buffer.Mem?
        && out.pointer == addrs.output && out.size == image.size
        && out.flags == CL_MEM_WRITE_ONLY && !out.writeBuffer
  {
    var plan := Plan(image, kernel, addrs);
    var st := AddAll(s, plan);
    if st.result.Success? {
      AddAllRegisters(s, plan);
      assert Realizes(st.result.value[1], plan[1]);
    }
  }

  /** The plan's calls name slots 0 to 5, one each, in order. */
  lemma PlanSlots(m: map<Slot, Arg>, image: Image, kernel: SmoothKernel, addrs: HostAddrs)
    ensures var plan := Plan(image, kernel, addrs);
      && |plan| == 6
      && (forall k :: k in SlotsOf(plan) <==> 0 <= k < 6)
      && (FreshSlots(m, plan) <==> forall k: Slot | 0 <= k < 6 :: k !in m)
  {
    var plan := Plan(image, kernel, addrs);
    assert forall i | 0 <= i < 6 :: plan[i].index == i;
    assert plan[0].index == 0 && plan[1].index == 1 && plan[2].index == 2;
    assert plan[3].index == 3 && plan[4].index == 4 && plan[5].index == 5;
  }

  // ---------------------------------------------------------------- the whole run

  /** The checked inputs: the decoded image and the parsed filter. */
  datatype Inputs = Inputs(image: Image, kernel: SmoothKernel)

  /** The filter text the command line selects: the second argument, or the default. */
  function FilterText(args: seq<string>): string
  {
    if |args| == 2 then args[1] else DEFAULT_KERNEL
  }

  /**
    The checks `main` makes before touching the device, in its order: the
    argument count, then the image, then the filter. Each refusal ends the
    program.
   */
  function LoadInputs(args: seq<string>, decoded: Option<Decoded>): (r: Result<Inputs>)
    ensures |args| != 1 && |args| != 2 ==> r == Failure(InvalidInput)
    ensures (|args| == 1 || |args| == 2) ==>
      && (decoded.None? ==> r == Failure(ImageLoadFailed))
      && (decoded.Some? && decoded.value.channels != SUPPORTED_CHANNELS ==>
            r == Failure(UnsupportedChannels(decoded.value.channels)))
      && (decoded.Some? && decoded.value.channels == SUPPORTED_CHANNELS ==>
            (r.Success? <==> LoadSmoothKernel(FilterText(args)).Success?))
    ensures ((|args| == 1 || |args| == 2) && decoded.Some? && decoded.value.channels == SUPPORTED_CHANNELS
             && LoadSmoothKernel(FilterText(args)).Failure?) ==>
      r == Failure(LoadSmoothKernel(FilterText(args)).error)
    ensures r.Success? ==>
      && decoded.Some?
      && r.value.image.width == decoded.value.width && r.value.image.height == decoded.value.height
      && r.value.image.data == decoded.value.data
      && r.value.image.channels == SUPPORTED_CHANNELS
      && r.value.image.size == r.value.image.height * (r.value.image.width * SUPPORTED_CHANNELS)
      && r.value.kernel.taps == Taps(FilterText(args))
      && Square(r.value.kernel.dimension) == |Taps(FilterText(args))|
      && r.value.kernel.size == |Taps(FilterText(args))| * SIZEOF_CL_FLOAT
  {
    var cmd :- ParseArgs(args);
    var image :- LoadImage(decoded);
    var kernel :- LoadSmoothKernel(cmd.kernelInput);
    Success(Inputs(image, kernel))
  }

  /** How a run ends: an early exit with the calls made so far, or a completed run. */
  datatype RunResult = Exited(error: Error, trace: seq<Call>) | Completed(final: Session)
  {
    /** The calls the run made, however it ended. */
    function Calls(): seq<Call>
    {
      if Exited? then trace else final.trace
    }
  }

  /** The registration on a fresh session, which always succeeds. */
  function Registration(inputs: Inputs, addrs: HostAddrs): (r: Step<Arg>)
    ensures r.result.Success?
  {
    RegisterPlan(Setup(), inputs.image, inputs.kernel, addrs)
  }

  /** The calls begin with the creation of the context and then of the queue. */
  predicate StartsWithSetup(t: seq<Call>)
  {
    |t| >= 2 && t[..2] == [CreateContext, CreateCommandQueue]
  }

  /** A trace that extends one starting with the setup calls starts with them too. */
  lemma SetupStartKept(t0: seq<Call>, t1: seq<Call>)
    requires StartsWithSetup(t0) && |t1| >= |t0| && t1[..|t0|] == t0
    ensures StartsWithSetup(t1)
  {
    assert t1[..2] == t1[..|t0|][..2];
  }

  /** The session when the device is queried: set up, arguments registered, kernel built and bound. */
  function Prepared(inputs: Inputs, addrs: HostAddrs): (r: Session)
    ensures StartsWithSetup(r.trace)
  {
    var registered := Registration(inputs, addrs).session;
    SetupStartKept(Setup().trace, registered.trace);
    var r := CreateKernel(registered);
    SetupStartKept(registered.trace, r.trace);
    r
  }

  /**
    What follows a passed capability check: the earlier calls are kept, then
    one dispatch over the image, then a blocking read of the output into its
    host array, and after that only `release`'s calls. The registry is kept
    and every owned buffer leaves the live set.
   */
  function Finish(s: Session, image: Image, outArg: Arg): (r: Session)
    ensures r.arguments == s.arguments && r.live == s.live - OwnedBuffers(s.arguments)
    ensures |r.trace| >= |s.trace| + 2 && r.trace[..|s.trace|] == s.trace
    ensures r.trace[|s.trace|] == EnqueueNDRange(2, [image.width, image.height])
    ensures r.trace[|s.trace| + 1] == ReadBuffer(outArg.buffer, outArg.size, outArg.pointer, true)
    ensures ReleaseCallsOnly(r.trace[|s.trace| + 2..])
  {
    var dispatched := EnqueueKernel(s, 2, GlobalWorkSize(image.width, image.height));
    var read := ReadBack(dispatched, outArg, true);
    ReleaseAfter(s.trace, read,
      EnqueueNDRange(2, [image.width, image.height]), ReadBuffer(outArg.buffer, outArg.size, outArg.pointer, true));
    Release(read)
  }

  /** `release` after two calls keeps them, in place, ahead of its own calls. */
  lemma ReleaseAfter(t: seq<Call>, read: Session, c1: Call, c2: Call)
    requires read.trace == t + [c1, c2]
    ensures var u := Release(read).trace;
      && |u| >= |t| + 2 && u[..|t|] == t && u[|t|] == c1 && u[|t| + 1] == c2
      && ReleaseCallsOnly(u[|t| + 2..])
  {
    var u := Release(read).trace;
    assert read.trace[..|t|] == t;
    PrefixTrans(t, read.trace, u);
    PrefixAt(read.trace, u, |t|);
    PrefixAt(read.trace, u, |t| + 1);
  }

  /** The capability predicate `main` passes, closed over the image's width and height. */
  function FitCheck(width: nat, height: nat): (check: DeviceCaps -> bool)
    ensures forall c: DeviceCaps :: check(c) <==> BlurFits(width, height, c)
  {
    (c: DeviceCaps) => BlurFits(width, height, c)
  }

  /**
    Everything `main` does once the inputs are accepted: the run completes
    exactly when the capability predicate accepts the device, and otherwise
    ends with the capability error and the calls made up to the check.
   */
  function Execute(inputs: Inputs, addrs: HostAddrs, caps: DeviceCaps): (r: RunResult)
    ensures r.Completed? <==> BlurFits(inputs.image.width, inputs.image.height, caps)
    ensures r.Exited? ==> r.error == CapabilityRejected && r.trace == Prepared(inputs, addrs).trace
    ensures StartsWithSetup(r.Calls())
  {
    var image := inputs.image;
    var outArg := Registration(inputs, addrs).result.value;
    var checked := CheckDeviceCapabilities(Prepared(inputs, addrs), caps, FitCheck(image.width, image.height));
    if checked.Failure? then Exited(checked.error, Prepared(inputs, addrs).trace)
    else
      var final := Finish(checked.value, image, outArg);
      SetupStartKept(checked.value.trace, final.trace);
      Completed(final)
  }

  /**
    `main` as a whole: the decoded image and the device's limits stand in for
    the file and the device it would query. The run completes exactly when the
    command line has one or two arguments, the image decodes with three
    channels, the filter passes the tap-count test and the device holds the
    image. An input
    refusal is exactly a run that exits with that refusal before any device
    call; accepted inputs lead to the device, starting with the context and
    the queue.
   */
  function Run(args: seq<string>, decoded: Option<Decoded>, addrs: HostAddrs, caps: DeviceCaps): (r: RunResult)
    ensures r.Completed? <==>
      && (|args| == 1 || |args| == 2)
      && decoded.Some? && decoded.value.channels == SUPPORTED_CHANNELS
      && LoadSmoothKernel(FilterText(args)).Success?
      && BlurFits(decoded.value.width, decoded.value.height, caps)
    ensures LoadInputs(args, decoded).Failure? <==> r.Exited? && r.Calls() == []
    ensures LoadInputs(args, decoded).Failure? ==> r.error == LoadInputs(args, decoded).error
    ensures LoadInputs(args, decoded).Success? ==> StartsWithSetup(r.Calls())
    ensures r.Exited? && LoadInputs(args, decoded).Success? ==> r.error == CapabilityRejected
  {
    match LoadInputs(args, decoded)
    case Failure(e) => Exited(e, [])
    case Success(inputs) => Execute(inputs, addrs, caps)
  }
}
