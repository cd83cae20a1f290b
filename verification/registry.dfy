/**
  The OpenCL host session (`OpenCL::App`) and its argument registry
  (`OpenCL::Argument`), as an immutable state.

  Device objects are opaque: a device buffer is a number handed out by a
  fresh-id allocator standing in for `clCreateBuffer`, and the calls the
  model records are appended to `trace`, in order. Device queries and
  platform enumeration are not recorded, and program and kernel creation are
  one build call. Every OpenCL call is taken to return `CL_SUCCESS`; the only
  failures are the host's own checks.
 */
module Registry {
  import opened Results

  /** `cl_uint`, the type of a kernel argument slot. */
  type Slot = i: int | 0 <= i < 0x1_0000_0000

  type BufferId = nat

  /** `cl_mem_flags` bits and the `cl_mem_info` query name used by the program (OpenCL 1.2 `cl.h`). */
  const CL_MEM_READ_WRITE: nat := 1
  const CL_MEM_WRITE_ONLY: nat := 2
  const CL_MEM_READ_ONLY: nat := 4
  const CL_MEM_FLAGS: nat := 0x1101

  /** `sizeof(cl_mem)` on a 64-bit host: a device buffer binds as one pointer. */
  const SIZEOF_CL_MEM: nat := 8

  /** A host pointer (`void*`), either null or some address. */
  datatype HostPtr = NullPtr | Ptr(addr: nat)

  /** A `cl_mem`: null for a local-memory argument, otherwise a device buffer. */
  datatype Mem = NullMem | Mem(id: BufferId)

  /** A host-side release callback (`std::function<void(void*)>`), named. */
  datatype Disposer = Disposer(name: string)

  /** The C library `free`, which `addLocalArgument` stores as the callback. */
  const C_FREE := Disposer("free")

  /** One kernel parameter (`struct Argument`). */
  datatype Arg = Arg(
    key: string,
    index: Slot,
    pointer: HostPtr,
    free: Option<Disposer>,
    size: nat,
    flags: nat,
    writeBuffer: bool,
    buffer: Mem)
  {
    /** A local-memory argument has no device buffer, only a size. */
    predicate IsLocal() { buffer.NullMem? }
  }

  /** A `cl_program` or `cl_kernel` handle. */
  datatype Handle = NullHandle | LiveHandle

  /** The value argument of `clSetKernelArg`: null, or the address of a `cl_mem`. */
  datatype BindValue = NullValue | MemValue(buffer: BufferId)

  /** One `clSetKernelArg(kernel, index, size, value)` call. */
  datatype Binding = Binding(index: Slot, size: nat, value: BindValue)

  /** The foreign calls the host makes, in the order it makes them. */
  datatype Call =
    | CreateContext
    | CreateCommandQueue
    | CreateBuffer(buffer: BufferId, flags: nat, size: nat)
    | WriteBuffer(buffer: BufferId, size: nat, source: HostPtr)
    | ReleaseMemObject(buffer: BufferId)
    | InvokeFree(disposer: Disposer, pointer: HostPtr)
    | BuildKernel
    | SetKernelArg(binding: Binding)
    | EnqueueNDRange(workDimensions: nat, globalWorkSize: seq<nat>)
    | ReadBuffer(from: Mem, size: nat, target: HostPtr, blocking: bool)
    | ReleaseKernel
    | ReleaseProgram
    | ReleaseCommandQueue
    | ReleaseContext

  /** `struct App`: one program, one kernel and the slot-keyed argument map. */
  datatype Session = Session(
    arguments: map<Slot, Arg>,
    live: set<BufferId>,
    nextBuffer: BufferId,
    trace: seq<Call>,
    bindings: seq<Binding>,
    program: Handle,
    kernel: Handle)

  /** The outcome of a registry operation: the new session and the caller's handle or the error. */
  datatype Step<+T> = Step(session: Session, result: Result<T>)

  /** The device buffers owned by the registered arguments. */
  function OwnedBuffers(m: map<Slot, Arg>): set<BufferId>
  {
    set k | k in m && m[k].buffer.Mem? :: m[k].buffer.id
  }

  /** The buffer an argument owns, as a set: empty for a local argument. */
  function BufferOf(arg: Arg): set<BufferId>
  {
    if arg.buffer.Mem? then {arg.buffer.id} else {}
  }

  /** No two arguments at different slots share a device buffer. */
  ghost predicate DistinctBuffers(m: map<Slot, Arg>)
  {
    forall k1, k2 | k1 in m && k2 in m && k1 != k2 && m[k1].buffer.Mem? :: m[k1].buffer != m[k2].buffer
  }

  /** Every entry's stored index is its key. */
  ghost predicate IndexedByKey(m: map<Slot, Arg>)
  {
    forall k | k in m :: m[k].index == k
  }

  /** The state every operation keeps. */
  ghost predicate Valid(s: Session)
  {
    && IndexedByKey(s.arguments)
    // no two arguments share a device buffer
    && DistinctBuffers(s.arguments)
    // the live buffers are exactly the owned ones: nothing leaked, nothing dangling
    && s.live == OwnedBuffers(s.arguments)
    && (forall b | b in s.live :: b < s.nextBuffer)
    // every buffer ever created has an id below the allocator's next id
    && (forall i | 0 <= i < |s.trace| && s.trace[i].CreateBuffer? :: s.trace[i].buffer < s.nextBuffer)
  }

  /** The caller's handle is the very argument stored at its slot. */
  predicate Registered(s: Session, arg: Arg)
  {
    arg.index in s.arguments && s.arguments[arg.index] == arg
  }

  /** `setup`: context and queue created, no program, no kernel, no arguments. */
  function Setup(): (s: Session)
    ensures s.arguments == map[] && s.live == {}
    ensures s.program.NullHandle? && s.kernel.NullHandle?
    ensures s.trace == [CreateContext, CreateCommandQueue]
  {
    Session(map[], {}, 0, [CreateContext, CreateCommandQueue], [], NullHandle, NullHandle)
  }

  /** The calls `Argument::freeResources` makes for `arg`. */
  function TeardownCalls(arg: Arg): seq<Call>
  {
    if arg.IsLocal() then []
    else [ReleaseMemObject(arg.buffer.id)] + (if arg.free.Some? then [InvokeFree(arg.free.value, arg.pointer)] else [])
  }

  /**
    `Argument::freeResources`: a local argument is left alone; otherwise the
    buffer is released once and then the callback, if any, runs once on the
    host pointer.
   */
  function FreeResources(s: Session, arg: Arg): (r: Session)
    ensures r.arguments == s.arguments && r.bindings == s.bindings && r.nextBuffer == s.nextBuffer
    ensures arg.IsLocal() ==> r == s
    ensures r.trace == s.trace + TeardownCalls(arg)
    ensures !arg.IsLocal() ==>
      && r.live == s.live - {arg.buffer.id}
      && |r.trace| == |s.trace| + (if arg.free.Some? then 2 else 1)
      && r.trace[..|s.trace|] == s.trace
      && r.trace[|s.trace|] == ReleaseMemObject(arg.buffer.id)
      && (arg.free.Some? ==> r.trace[|s.trace| + 1] == InvokeFree(arg.free.value, arg.pointer))
    ensures arg.free.None? ==> forall i | |s.trace| <= i < |r.trace| :: !r.trace[i].InvokeFree?
  {
    if arg.IsLocal() then s
    else s.(live := s.live - {arg.buffer.id}, trace := s.trace + TeardownCalls(arg))
  }

  /**
    `addArgument`: refuses an occupied slot before allocating anything;
    otherwise allocates a fresh buffer, uploads the host data when
    `writeBuffer` is set, and registers the new argument at `index`.
   */
  function AddArgument(
    s: Session, key: string, index: Slot, pointer: HostPtr, free: Option<Disposer>,
    size: nat, flags: nat, writeBuffer: bool): (r: Step<Arg>)
    ensures r.result.Failure? <==> index in s.arguments
    ensures r.result.Failure? ==> r.result.error == DuplicateSlot(index) && r.session == s
    ensures r.result.Success? ==>
      var arg := r.result.value;
      && arg.buffer.Mem?
      && arg.buffer.id >= s.nextBuffer
      && arg == Arg(key, index, pointer, free, size, flags, writeBuffer, arg.buffer)
      && r.session.arguments == s.arguments[index := arg]
      && r.session.live == s.live + {arg.buffer.id}
      && r.session.nextBuffer > arg.buffer.id
      && |r.session.trace| == |s.trace| + (if writeBuffer then 2 else 1)
      && r.session.trace[..|s.trace|] == s.trace
      && r.session.trace[|s.trace|] == CreateBuffer(arg.buffer.id, flags, size)
      && (writeBuffer ==> r.session.trace[|s.trace| + 1] == WriteBuffer(arg.buffer.id, size, pointer))
      && r.session.bindings == s.bindings
      && r.session.program == s.program && r.session.kernel == s.kernel
  {
    if index in s.arguments then Step(s, Failure(DuplicateSlot(index)))
    else
      var id := s.nextBuffer;
      var upload := if writeBuffer then [WriteBuffer(id, size, pointer)] else [];
      var arg := Arg(key, index, pointer, free, size, flags, writeBuffer, Mem(id));
      var s' := s.(
        arguments := s.arguments[index := arg],
        live := s.live + {id},
        nextBuffer := id + 1,
        trace := s.trace + [CreateBuffer(id, flags, size)] + upload);
      Step(s', Success(arg))
  }

  /**
    `addLocalArgument`: the same duplicate-slot refusal; on success a
    size-only entry with no buffer, no host pointer and no upload.
   */
  function AddLocalArgument(s: Session, key: string, index: Slot, size: nat): (r: Step<Arg>)
    ensures r.result.Failure? <==> index in s.arguments
    ensures r.result.Failure? ==> r.result.error == DuplicateSlot(index) && r.session == s
    ensures r.result.Success? ==>
      var arg := r.result.value;
      && arg.IsLocal() && arg.pointer.NullPtr? && !arg.writeBuffer
      && arg.key == key && arg.index == index && arg.size == size
      && r.session == s.(arguments := s.arguments[index := arg])
  {
    if index in s.arguments then Step(s, Failure(DuplicateSlot(index)))
    else
      var arg := Arg(key, index, NullPtr, Some(C_FREE), size, CL_MEM_FLAGS, false, NullMem);
      Step(s.(arguments := s.arguments[index := arg]), Success(arg))
  }

  /** `removeArgument`: free the argument's resources, then erase its current slot. */
  function RemoveArgument(s: Session, arg: Arg): (r: Session)
    ensures r.arguments == s.arguments - {arg.index}
    ensures arg.IsLocal() ==> r.live == s.live && r.trace == s.trace
    ensures !arg.IsLocal() ==> r.live == s.live - {arg.buffer.id}
    ensures r.trace == s.trace + TeardownCalls(arg)
    ensures r.nextBuffer == s.nextBuffer && r.bindings == s.bindings
  {
    var freed := FreeResources(s, arg);
    freed.(arguments := s.arguments - {arg.index})
  }

  /**
    `changeArgumentIndex`: refuses any occupied target slot (the argument's
    own slot included); otherwise erases the argument's current slot and
    stores it, with only its index changed, at the new slot. The returned
    handle is the updated argument, as the caller's shared object is.
   */
  function ChangeArgumentIndex(s: Session, arg: Arg, index: Slot): (r: Step<Arg>)
    ensures r.result.Failure? <==> index in s.arguments
    ensures r.result.Failure? ==> r.result.error == DuplicateSlot(index) && r.session == s
    ensures r.result.Success? ==>
      var moved := r.result.value;
      && moved.index == index
      && moved.(index := arg.index) == arg
      && r.session.arguments.Keys == s.arguments.Keys - {arg.index} + {index}
      && r.session.arguments[index] == moved
      && (forall k | k in s.arguments && k != arg.index :: r.session.arguments[k] == s.arguments[k])
      && r.session.live == s.live && r.session.trace == s.trace
  {
    if index in s.arguments then Step(s, Failure(DuplicateSlot(index)))
    else
      var moved := arg.(index := index);
      Step(s.(arguments := (s.arguments - {arg.index})[index := moved]), Success(moved))
  }

  /** `m` is the least slot of `ks`. */
  predicate IsLeast(m: Slot, ks: set<Slot>)
  {
    m in ks && forall k | k in ks :: m <= k
  }

  /** There is a least slot in every non-empty slot set. */
  lemma {:induction false} MinimumExists(ks: set<Slot>)
    requires ks != {}
    ensures exists m :: IsLeast(m, ks)
    decreases |ks|
  {
    var x :| x in ks;
    var rest := ks - {x};
    if rest == {} {
      forall k | k in ks
        ensures x <= k
      {
        assert k !in rest;
      }
      assert IsLeast(x, ks);
    } else {
      MinimumExists(rest);
      var m :| IsLeast(m, rest);
      var least := if x < m then x else m;
      forall k | k in ks
        ensures least <= k
      {
        if k != x {
          assert k in rest;
        }
      }
      assert IsLeast(least, ks);
    }
  }

  /** The least slot of a non-empty slot set. */
  function Least(ks: set<Slot>): (m: Slot)
    requires ks != {}
    ensures IsLeast(m, ks)
  {
    MinimumExists(ks);
    var m :| IsLeast(m, ks);
    m
  }

  /** The slots of a `std::map<cl_uint, ...>` in its iteration order. */
  function AscendingSlots(ks: set<Slot>): (r: seq<Slot>)
    ensures |r| == |ks|
    ensures forall k :: k in r <==> k in ks
    ensures forall i, j | 0 <= i < j < |r| :: r[i] < r[j]
    decreases |ks|
  {
    if ks == {} then []
    else
      var m := Least(ks);
      var rest := AscendingSlots(ks - {m});
      var r := [m] + rest;
      forall i, j | 0 <= i < j < |r|
        ensures r[i] < r[j]
      {
        assert r[j] == rest[j - 1] && rest[j - 1] in ks - {m};
        if i > 0 {
          assert r[i] == rest[i - 1];
        }
      }
      r
  }

  /**
    How one argument is bound: a buffer argument passes the address of its
    `cl_mem`, a local argument only its size with a null value (section 5.7.2
    of the OpenCL 1.2 specification).
   */
  function BindingOf(arg: Arg): Binding
  {
    if arg.IsLocal() then Binding(arg.index, arg.size, NullValue)
    else Binding(arg.index, SIZEOF_CL_MEM, MemValue(arg.buffer.id))
  }

  function BindingsFor(m: map<Slot, Arg>, slots: seq<Slot>): (r: seq<Binding>)
    requires forall k | k in slots :: k in m
    ensures |r| == |slots|
    ensures forall i | 0 <= i < |slots| :: r[i] == BindingOf(m[slots[i]])
  {
    if slots == [] then [] else [BindingOf(m[slots[0]])] + BindingsFor(m, slots[1..])
  }

  function SetKernelArgCalls(bs: seq<Binding>): (r: seq<Call>)
    ensures |r| == |bs|
    ensures forall i | 0 <= i < |bs| :: r[i] == SetKernelArg(bs[i])
  {
    if bs == [] then [] else [SetKernelArg(bs[0])] + SetKernelArgCalls(bs[1..])
  }

  /**
    `refreshKernelArguments`: one `clSetKernelArg` per registered argument,
    in ascending slot order, each at the argument's stored index.
   */
  function RefreshKernelArguments(s: Session): (r: Session)
    ensures r.arguments == s.arguments && r.live == s.live && r.nextBuffer == s.nextBuffer
    ensures r.program == s.program && r.kernel == s.kernel
    ensures |r.bindings| == |s.arguments|
    ensures r.bindings == BindingsFor(s.arguments, AscendingSlots(s.arguments.Keys))
    ensures r.trace == s.trace + SetKernelArgCalls(r.bindings)
  {
    var bs := BindingsFor(s.arguments, AscendingSlots(s.arguments.Keys));
    s.(bindings := bs, trace := s.trace + SetKernelArgCalls(bs))
  }

  /**
    The session-level part of `createKernel`: the program is built, the
    kernel created, and every argument registered so far is bound.
   */
  function CreateKernel(s: Session): (r: Session)
    ensures r.arguments == s.arguments && r.live == s.live && r.nextBuffer == s.nextBuffer
    ensures r.program.LiveHandle? && r.kernel.LiveHandle?
    ensures |r.bindings| == |s.arguments|
    ensures r.bindings == BindingsFor(s.arguments, AscendingSlots(s.arguments.Keys))
    ensures r.trace == s.trace + [BuildKernel] + SetKernelArgCalls(r.bindings)
    ensures |r.trace| == |s.trace| + 1 + |s.arguments|
    ensures r.trace[..|s.trace|] == s.trace && r.trace[|s.trace|] == BuildKernel
    ensures forall i | |s.trace| < i < |r.trace| :: r.trace[i].SetKernelArg?
  {
    var built := s.(program := LiveHandle, kernel := LiveHandle, trace := s.trace + [BuildKernel]);
    var r := RefreshKernelArguments(built);
    BuildThenBind(s.trace, r.bindings);
    r
  }

  /** What the device reports before the capability check (the `clGetDeviceInfo` queries). */
  datatype DeviceInfo = DeviceInfo(
    maxWorkGroupSize: nat,
    maxWorkItemDimensions: nat,
    maxWorkItemSizes: seq<nat>,
    maxLocalMemory: nat)

  /** The per-dimension query returns exactly one limit per dimension. */
  type DeviceCaps = c: DeviceInfo | |c.maxWorkItemSizes| == c.maxWorkItemDimensions
    witness DeviceInfo(0, 0, [], 0)

  /**
    `checkDeviceCapabilities`: a gate. It passes the queried values to the
    caller's predicate and either lets the session through untouched or stops.
   */
  function CheckDeviceCapabilities(s: Session, caps: DeviceCaps, check: DeviceCaps -> bool): (r: Result<Session>)
    ensures r.Success? <==> check(caps)
    ensures r.Success? ==> r.value == s
    ensures r.Failure? ==> r.error == CapabilityRejected
  {
    if check(caps) then Success(s) else Failure(CapabilityRejected)
  }

  /** `enqueueKernel` as `main` uses it: no local size, no events. The device work is not modelled. */
  function EnqueueKernel(s: Session, workDimensions: nat, globalWorkSize: seq<nat>): (r: Session)
    ensures r.arguments == s.arguments && r.live == s.live
    ensures r.trace == s.trace + [EnqueueNDRange(workDimensions, globalWorkSize)]
  {
    s.(trace := s.trace + [EnqueueNDRange(workDimensions, globalWorkSize)])
  }

  /** `readBuffer`: the copy of `arg.size` bytes from its buffer into its host pointer. */
  function ReadBack(s: Session, arg: Arg, blocking: bool): (r: Session)
    ensures r.arguments == s.arguments && r.live == s.live
    ensures r.trace == s.trace + [ReadBuffer(arg.buffer, arg.size, arg.pointer, blocking)]
  {
    s.(trace := s.trace + [ReadBuffer(arg.buffer, arg.size, arg.pointer, blocking)])
  }

  /** The buffers owned by the arguments at the given slots. */
  function BuffersAt(m: map<Slot, Arg>, slots: seq<Slot>): set<BufferId>
  {
    set k | k in slots && k in m && m[k].buffer.Mem? :: m[k].buffer.id
  }

  lemma BuffersAtEverySlot(m: map<Slot, Arg>, slots: seq<Slot>)
    requires forall k :: k in slots <==> k in m
    ensures BuffersAt(m, slots) == OwnedBuffers(m)
  {
  }

  /** The buffers of the non-local arguments at `slots`, in order. */
  function BufferSeq(m: map<Slot, Arg>, slots: seq<Slot>): seq<BufferId>
    requires forall k | k in slots :: k in m
  {
    if slots == [] then []
    else (if m[slots[0]].buffer.Mem? then [m[slots[0]].buffer.id] else []) + BufferSeq(m, slots[1..])
  }

  /**
    The host callbacks the arguments at `slots` carry, in slot order: one
    per argument that owns a buffer and has a callback, applied to its host
    pointer.
   */
  function DueCallbacks(m: map<Slot, Arg>, slots: seq<Slot>): seq<Call>
    requires forall k | k in slots :: k in m
  {
    if slots == [] then []
    else
      var arg := m[slots[0]];
      (if arg.buffer.Mem? && arg.free.Some? then [InvokeFree(arg.free.value, arg.pointer)] else [])
      + DueCallbacks(m, slots[1..])
  }

  /** The host callback calls in a trace, in order. */
  function Callbacks(t: seq<Call>): seq<Call>
  {
    if t == [] then []
    else (if t[0].InvokeFree? then [t[0]] else []) + Callbacks(t[1..])
  }

  /** The buffer ids of the `clReleaseMemObject` calls in a trace, in order. */
  function ReleasedIds(t: seq<Call>): seq<BufferId>
  {
    if t == [] then []
    else (if t[0].ReleaseMemObject? then [t[0].buffer] else []) + ReleasedIds(t[1..])
  }

  /** Every call in `t` releases a buffer or runs a host callback. */
  predicate TeardownOnly(t: seq<Call>)
  {
    forall i | 0 <= i < |t| :: t[i].ReleaseMemObject? || t[i].InvokeFree?
  }

  /** A call `release` makes: one of its own releases, or a buffer teardown. */
  predicate ReleaseCall(c: Call)
  {
    c.ReleaseKernel? || c.ReleaseProgram? || c.ReleaseMemObject? || c.InvokeFree?
    || c.ReleaseCommandQueue? || c.ReleaseContext?
  }

  /** Every call in `t` is one `release` makes. */
  predicate ReleaseCallsOnly(t: seq<Call>)
  {
    forall i | 0 <= i < |t| :: ReleaseCall(t[i])
  }

  /** The calls `freeResources` makes for the arguments at `slots`, one after the other. */
  function TeardownTrace(m: map<Slot, Arg>, slots: seq<Slot>): seq<Call>
    requires forall k | k in slots :: k in m
  {
    if slots == [] then [] else TeardownCalls(m[slots[0]]) + TeardownTrace(m, slots[1..])
  }

  /**
    The loop of `release` over the arguments at `slots`: every buffer they
    own leaves the live set, and their teardown calls follow in slot order.
    `FreeInOrderStep` shows this is `freeResources` applied slot by slot.
   */
  function FreeInOrder(s: Session, slots: seq<Slot>): (r: Session)
    requires forall k | k in slots :: k in s.arguments
    ensures r.arguments == s.arguments && r.nextBuffer == s.nextBuffer
    ensures r.live == s.live - BuffersAt(s.arguments, slots)
    ensures |r.trace| >= |s.trace| && r.trace[..|s.trace|] == s.trace
    ensures TeardownOnly(r.trace[|s.trace|..])
  {
    var calls := TeardownTrace(s.arguments, slots);
    TeardownTraceOnly(s.arguments, slots);
    var r := s.(live := s.live - BuffersAt(s.arguments, slots), trace := s.trace + calls);
    assert r.trace[|s.trace|..] == calls;
    r
  }

  lemma {:induction false} TeardownTraceOnly(m: map<Slot, Arg>, slots: seq<Slot>)
    requires forall k | k in slots :: k in m
    ensures TeardownOnly(TeardownTrace(m, slots))
    decreases |slots|
  {
    if slots != [] {
      TeardownTraceOnly(m, slots[1..]);
      TeardownOnlyConcat(TeardownCalls(m[slots[0]]), TeardownTrace(m, slots[1..]));
    }
  }

  lemma TeardownOnlyConcat(a: seq<Call>, b: seq<Call>)
    requires TeardownOnly(a) && TeardownOnly(b)
    ensures TeardownOnly(a + b)
  {
    var t := a + b;
    forall i | 0 <= i < |t|
      ensures t[i].ReleaseMemObject? || t[i].InvokeFree?
    {
      if i >= |a| {
        assert t[i] == b[i - |a|];
      }
    }
  }

  lemma BuffersAtCons(m: map<Slot, Arg>, slots: seq<Slot>)
    requires slots != []
    ensures BuffersAt(m, slots) == BuffersAt(m, [slots[0]]) + BuffersAt(m, slots[1..])
  {
    assert forall k :: k in slots <==> k == slots[0] || k in slots[1..];
  }

  /**
    `release`: kernel and program first, then every registered argument in
    slot order, then the queue and the context. The argument map itself is
    left as it was.
   */
  function Release(s: Session): (r: Session)
    ensures r.arguments == s.arguments
    ensures r.live == s.live - OwnedBuffers(s.arguments)
    ensures |r.trace| >= |s.trace| + 4 && r.trace[..|s.trace|] == s.trace
    ensures r.trace[|s.trace|] == ReleaseKernel && r.trace[|s.trace| + 1] == ReleaseProgram
    ensures TeardownOnly(r.trace[|s.trace| + 2..|r.trace| - 2])
    ensures r.trace[|s.trace| + 2..|r.trace| - 2] == TeardownTrace(s.arguments, AscendingSlots(s.arguments.Keys))
    ensures r.trace[|r.trace| - 2] == ReleaseCommandQueue && r.trace[|r.trace| - 1] == ReleaseContext
    ensures ReleaseCallsOnly(r.trace[|s.trace|..])
  {
    var slots := AscendingSlots(s.arguments.Keys);
    var head := s.(trace := s.trace + [ReleaseKernel, ReleaseProgram]);
    var freed := FreeInOrder(head, slots);
    BuffersAtEverySlot(s.arguments, slots);
    var middle := freed.trace[|head.trace|..];
    PrefixSplit(head.trace, freed.trace);
    ReleaseShape(s.trace, middle);
    freed.(trace := freed.trace + [ReleaseCommandQueue, ReleaseContext])
  }

  /** The shape of `release`'s calls around the per-argument teardown. */
  lemma ReleaseShape(t: seq<Call>, middle: seq<Call>)
    requires TeardownOnly(middle)
    ensures var u := t + [ReleaseKernel, ReleaseProgram] + middle + [ReleaseCommandQueue, ReleaseContext];
      && |u| >= |t| + 4 && u[..|t|] == t
      && u[|t|] == ReleaseKernel && u[|t| + 1] == ReleaseProgram
      && u[|t| + 2..|u| - 2] == middle
      && u[|u| - 2] == ReleaseCommandQueue && u[|u| - 1] == ReleaseContext
      && ReleaseCallsOnly(u[|t|..])
  {
    var u := t + [ReleaseKernel, ReleaseProgram] + middle + [ReleaseCommandQueue, ReleaseContext];
    var tail := u[|t|..];
    forall i | 0 <= i < |tail|
      ensures ReleaseCall(tail[i])
    {
      if 2 <= i < |tail| - 2 {
        assert tail[i] == middle[i - 2];
      }
    }
  }

  /** The calls `createKernel` appends: the build, then one binding call per binding. */
  lemma BuildThenBind(t: seq<Call>, bs: seq<Binding>)
    ensures var u := t + [BuildKernel] + SetKernelArgCalls(bs);
      && |u| > |t| && u[..|t|] == t && u[|t|] == BuildKernel
      && forall i | |t| < i < |u| :: u[i].SetKernelArg?
  {
    var calls := SetKernelArgCalls(bs);
    var u := t + [BuildKernel] + calls;
    forall i | |t| < i < |u|
      ensures u[i].SetKernelArg?
    {
      assert u[i] == calls[i - |t| - 1];
    }
  }

  /** A sequence that starts with `a` is `a` followed by the rest. */
  lemma PrefixSplit<T>(a: seq<T>, b: seq<T>)
    requires |a| <= |b| && b[..|a|] == a
    ensures b == a + b[|a|..]
  {
    assert b == b[..|a|] + b[|a|..];
  }

  /** A sequence that starts with `a` agrees with `a` at each of its positions. */
  lemma PrefixTrans<T>(a: seq<T>, b: seq<T>, c: seq<T>)
    requires |a| <= |b| <= |c| && b[..|a|] == a && c[..|b|] == b
    ensures c[..|a|] == a
  {
    assert c[..|a|] == c[..|b|][..|a|];
  }

  lemma PrefixAt<T>(a: seq<T>, b: seq<T>, i: int)
    requires |a| <= |b| && b[..|a|] == a && 0 <= i < |a|
    ensures b[i] == a[i]
  {
    assert b[i] == b[..|a|][i];
  }
}
