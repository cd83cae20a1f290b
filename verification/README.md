# gaussian-blur host program, modelled in Dafny

The host side of the gaussian-blur OpenCL program has two parts, both modelled here.

The first part is the argument registry in `src/host/OpenCL.cpp` and `src/host/OpenCL.h`:
- `OpenCL::App` holds a slot-keyed map of `Argument`s.
- `addArgument`, `addLocalArgument`, `removeArgument`, `changeArgumentIndex`, `refreshKernelArguments`, `Argument::freeResources` and `release` update that map.
- These operations also drive the OpenCL calls that create, fill, bind and release device buffers.

The second part is `main` in `src/host/main.cpp`:
- It checks the command line, the decoded image and the smoothing filter text.
- It registers the six kernel arguments at slots 0 to 5 and builds the kernel.
- It asks the device-capability gate whether the image fits.
- It dispatches one two-dimensional range, reads the output back and releases everything.

The model is functional:
- A session (`Registry.Session`) is an immutable record holding:
  - the argument map (`map<Slot, Arg>`, with `Slot` the 32-bit `cl_uint` range);
  - the set of live device-buffer ids, where `clCreateBuffer` is a fresh-id allocator;
  - the last binding list;
  - the program and kernel handles;
  - a trace of the calls the model records, in order: context and queue creation, buffer creation, upload, release, host free callbacks, the kernel build, kernel argument binding, dispatch, read-back and the final releases. Device queries, platform and device enumeration, program and kernel creation as separate calls (they are one build call here) and the image library's calls are not recorded.
- Every registry operation is a function from a session to a new session. The return types differ:
  - `AddArgument`, `AddLocalArgument` and `ChangeArgumentIndex` return a `Registry.Step`: the new session plus either the caller's handle or an error;
  - `CheckDeviceCapabilities` returns a `Results.Result` of the session: the session unchanged, or the capability error;
  - `FreeResources`, `RemoveArgument`, `RefreshKernelArguments`, `CreateKernel`, `EnqueueKernel`, `ReadBack`, `FreeInOrder` and `Release` return the new session alone.
- The registry invariant is `Registry.Valid`:
  - every stored index equals its key;
  - no two arguments share a buffer;
  - the live buffers are exactly the owned ones;
  - every id ever handed out is below the allocator's next id.
- Which operations keep `Valid`:
  - `Setup` establishes it (`RegistryProofs.SetupIsValid`);
  - `AddArgument`, `AddLocalArgument`, and `RemoveArgument` and `ChangeArgumentIndex` on a registered handle keep it (`RegistryProofs.AddArgumentKeepsValid` and its siblings);
  - a run of registrations keeps it (`BlurMainProofs.AddAllKeepsValid`);
  - building the kernel, which refreshes the bindings, keeps it (`BlurMainProofs.KernelBuildKeepsValid`);
  - the dispatch and the read keep it (`BlurMainProofs.DispatchAndReadKeepValid`).
- `Release` ends validity. It empties the live set but leaves the map, so the map still names the released buffers. `FreeResources` on its own likewise drops a buffer that the map still names; it is only sound as part of `RemoveArgument` or `Release`.

Input checks are pure functions returning a `Results.Result`:
- command-line arity;
- the image's channel count and byte size;
- the filter's tap count;
- the capability predicate.

`main` is `BlurMain.Run`. It takes four parameters:
- the command-line arguments;
- the decoder's outcome;
- the host addresses;
- the device's limits.

It returns either an early exit, with the error and the calls made so far, or the final session.

Modules:
- `Results`: `Option`, `Result` and the host's error cases.
- `Registry` and `RegistryProofs`: the argument registry and its invariants.
- `HostStrings`: `removeChar`, `splitStr`, and `Join`, the inverse of `splitStr`.
- `Validation` and `ValidationProofs`: the input checks and the capability predicate.
- `BlurMain` and `BlurMainProofs`: the slot plan and the whole run.

Notes on the code as written:
- `release` does not clear the argument map. The code only frees each argument, so after `release` the arguments are still registered, and a second `release` would release their buffers again (`RegistryProofs.SecondReleaseReleasesAgain`).
- `addLocalArgument` stores the C library `free` as the argument's callback and `CL_MEM_FLAGS` (0x1101, a `cl_mem_info` query name) as its flags. This is harmless: `freeResources` returns before it reaches the callback when the buffer is null.
- The capability lambda in `main` takes three parameters, while the predicate type declared in the header takes four. The model checks the three values the lambda reads.

## Model

| member | source | states |
|---|---|---|
| Registry.Setup | src/host/OpenCL.cpp:57-68 | setup creates the context and the queue; the registry starts empty, with no live buffer and with null program and kernel |
| Registry.FreeResources | src/host/OpenCL.cpp:19-26 | a local argument (null buffer) makes no call and changes nothing; a buffer argument has its buffer released once, then its callback, if present, invoked once on its host pointer; with no callback nothing is invoked |
| Registry.AddArgument | src/host/OpenCL.cpp:72-97 | fails with the duplicate-slot error exactly when the slot is occupied, leaving the session unchanged and creating no buffer; otherwise creates one fresh buffer and makes one call more (the upload of the host data into that buffer) exactly when writeBuffer is set, and none otherwise, and stores at the slot an argument with exactly the given parameters, leaving every other entry as it was |
| Registry.AddLocalArgument | src/host/OpenCL.cpp:99-114 | the same duplicate-slot refusal; on success a size-only entry with null pointer, null buffer and no upload, and no call made and no buffer touched |
| Registry.RemoveArgument | src/host/OpenCL.cpp:116-120 | the argument's resources are freed and exactly its current slot is erased; a local argument leaves the live set and the trace as they were |
| Registry.ChangeArgumentIndex | src/host/OpenCL.cpp:122-130 | fails when the target slot is occupied, including the argument's own slot; otherwise the old slot is gone, and the new slot holds the same argument with only its index changed; other entries, the buffers and the trace are unchanged |
| Registry.AscendingSlots | src/host/OpenCL.h:58 | iteration over the `std::map` visits each registered slot exactly once, in strictly ascending order |
| Registry.BindingsFor | src/host/OpenCL.cpp:165-171 | the i-th binding is the argument at the i-th slot bound as (index, sizeof(cl_mem), its buffer), or as (index, size, null) for a local argument |
| Registry.RefreshKernelArguments | src/host/OpenCL.cpp:164-173 | the bindings are those of the registered arguments taken in ascending slot order, one per argument, and one `clSetKernelArg` call per binding is appended to the trace, in that order; registry, buffers, program and kernel unchanged |
| Registry.CreateKernel | src/host/OpenCL.cpp:132-162 | after the build the single program and kernel are live, the calls made so far are kept, the build comes next, then exactly the refresh's bindings follow: one `clSetKernelArg` per registered argument, in ascending slot order, each binding the argument's own index, size and value |
| Registry.CheckDeviceCapabilities | src/host/OpenCL.cpp:213-219 | the gate passes exactly when the caller's predicate accepts the device's values, then hands the session back unchanged; otherwise it stops with the capability error |
| Registry.EnqueueKernel | src/host/OpenCL.cpp:222-232 | dispatch adds one range call with the given dimensions and global size and leaves the registry and buffers alone |
| Registry.ReadBack | src/host/OpenCL.cpp:238-245 | the read copies the argument's size from its buffer into its host pointer, with the given blocking flag, and leaves the registry and buffers alone |
| Registry.FreeInOrder | src/host/OpenCL.cpp:252-254 | freeing the arguments at the given slots removes exactly their buffers from the live set, keeps the earlier calls and adds only buffer releases and callbacks |
| Registry.TeardownTraceOnly | src/host/OpenCL.cpp:19-26 | the calls made while freeing any run of arguments are only buffer releases and callback invocations |
| Registry.Release | src/host/OpenCL.cpp:247-258 | the kernel and program are released first; then, for each registered argument in ascending slot order, exactly the calls its `freeResources` makes (its buffer's release, then its callback if it has one, nothing for a local argument); then the queue and the context; so every call it adds is a release or a callback; the argument map is left as it was, and every owned buffer leaves the live set |
| RegistryProofs.SetupIsValid | src/host/OpenCL.cpp:64-68 | the initial session satisfies the registry invariant and has no arguments, no bindings, and null program and kernel |
| RegistryProofs.AddArgumentKeepsValid | src/host/OpenCL.cpp:82-94 | a successful add keeps the invariant; the new buffer was not live and not owned before, and the returned handle is the registered argument |
| RegistryProofs.AddLocalArgumentKeepsValid | src/host/OpenCL.cpp:105-111 | a successful local add keeps the invariant, does not change the live buffers or the trace, and registers the returned handle |
| RegistryProofs.RemoveArgumentKeepsValid | src/host/OpenCL.cpp:116-120 | removing a registered argument keeps the invariant |
| RegistryProofs.ChangeArgumentIndexKeepsValid | src/host/OpenCL.cpp:122-130 | moving a registered argument keeps the invariant, and the moved handle is registered at its new slot |
| RegistryProofs.AddThenRemoveRestores | src/host/OpenCL.cpp:116-120 | addArgument followed by removeArgument on the returned handle restores the argument map, the slot set and the live buffers |
| RegistryProofs.AddLocalThenRemoveRestores | src/host/OpenCL.cpp:105-120 | addLocalArgument followed by removeArgument restores the session exactly, trace included |
| RegistryProofs.RefreshBindsInSlotOrder | src/host/OpenCL.cpp:164-173 | the refresh binds every registered slot exactly once, in strictly ascending slot order, each binding built from the argument at that slot |
| RegistryProofs.ChangeThenRefreshBindsSameBuffer | src/host/OpenCL.cpp:122-130 | after moving a buffer argument and refreshing, it is bound at its new slot with its own unchanged buffer, and nothing is bound at its old slot |
| RegistryProofs.FreeInOrderStep | src/host/OpenCL.cpp:252-254 | freeing the arguments at a run of slots is `freeResources` on the first argument followed by freeing the rest, and freeing none changes nothing: the release loop one argument at a time |
| RegistryProofs.TeardownTraceReleases | src/host/OpenCL.cpp:19-26 | the teardown calls of a run of arguments release exactly those arguments' buffers, in slot order, local arguments contributing none |
| RegistryProofs.FreeInOrderReleases | src/host/OpenCL.cpp:252-254 | the buffers released while freeing the arguments at the given slots are those arguments' buffers, in slot order |
| RegistryProofs.ReleaseSegment | src/host/OpenCL.cpp:247-258 | the buffers release releases are the registered arguments' buffers in ascending slot order, and nothing else |
| RegistryProofs.ReleaseFreesEachBufferOnce | src/host/OpenCL.cpp:247-258 | on a valid session release releases each owned buffer exactly once and no other buffer, and leaves no buffer live |
| RegistryProofs.TeardownCallbacks | src/host/OpenCL.cpp:19-26 | `freeResources` runs the argument's own callback on its host pointer exactly when it owns a buffer and has a callback, and no other callback |
| RegistryProofs.TeardownTraceCallbacks | src/host/OpenCL.cpp:19-26 | freeing a run of arguments runs exactly the callbacks of those that own a buffer and carry one, in slot order, each on its own host pointer |
| RegistryProofs.FreeInOrderCallbacks | src/host/OpenCL.cpp:252-254 | the release loop over the given slots adds exactly those arguments' due callbacks, in slot order, to the callbacks already run |
| RegistryProofs.ReleaseRunsEachCallbackOnce | src/host/OpenCL.cpp:247-258 | release runs the callback of every registered buffer argument that has one, once, on its host pointer, in ascending slot order, and no other callback |
| RegistryProofs.SecondReleaseReleasesAgain | src/host/OpenCL.cpp:247-258 | since release keeps the argument map, a second release releases every owned buffer a second time |
| HostStrings.RemoveChar | src/host/main.cpp:56-58 | no occurrence of the character is left, and every other character keeps its number of occurrences |
| HostStrings.RemoveCharConcat | src/host/main.cpp:56-58 | removal works piecewise over concatenation, so the remaining characters keep their order |
| HostStrings.RemoveCharIdempotent | src/host/main.cpp:56-58 | removing the same character twice is removing it once |
| HostStrings.Split | src/host/main.cpp:60-67 | an empty string gives no field, and no field contains the delimiter |
| HostStrings.JoinSplit | src/host/main.cpp:60-67 | joining the fields with the delimiter gives back the input, minus one final delimiter if there was one |
| HostStrings.SplitJoin | src/host/main.cpp:60-67 | splitting delimiter-free fields joined by the delimiter gives the fields back, provided the last one is non-empty |
| Validation.ParseArgs | src/host/main.cpp:104-116 | one argument takes the default filter, two take the user's filter, any other count is refused |
| Validation.LoadImage | src/host/main.cpp:24-48 | a failed decode and any channel count other than 3 are refused with their own errors; otherwise the size is width x height x 3 bytes |
| Validation.ISqrt | src/host/main.cpp:84 | the integer square root r of n satisfies r*r <= n < (r+1)*(r+1) |
| Validation.SquareRootOfSquare | src/host/main.cpp:84-85 | the integer square root of d*d is d, so every perfect square passes the dimension test |
| Validation.LoadSmoothKernel | src/host/main.cpp:77-93 | accepted by the count test exactly when the tap count is non-zero, odd and a perfect square; then the dimension squared is the tap count, the dimension is odd, the size is 4 bytes per tap, and the taps are the fields; otherwise the refusal names the tap count |
| ValidationProofs.StripParens | src/host/main.cpp:78-81 | parentheses around a parenthesis-free body are all that is removed before the split |
| ValidationProofs.TapsOfFilterText | src/host/main.cpp:78-81 | a filter written as parenthesised, comma-separated taps yields exactly those taps |
| ValidationProofs.DefaultKernelText | src/host/main.cpp:106-108 | the default filter is, character for character, the three adjacent literals `main` assigns when no filter is given |
| HostStrings.JoinAppend | src/host/main.cpp:60-67 | joining two non-empty runs of fields puts exactly one delimiter between their joins |
| ValidationProofs.DefaultKernelTaps | src/host/main.cpp:106-108 | the default filter's fields are its nine taps |
| ValidationProofs.DefaultKernelAccepted | src/host/main.cpp:106-108 | the default filter is accepted as a 3 x 3 filter of 36 bytes |
| ValidationProofs.IdentityFilterAccepted | src/host/main.cpp:85-88 | the one-tap filter `(1)` is accepted with dimension 1 and size 4 |
| ValidationProofs.EvenFilterRejected | src/host/main.cpp:85-92 | `(0.1,0.2)` is refused with tap count 2 |
| ValidationProofs.ThreeTapFilterRejected | src/host/main.cpp:85-92 | `(0.25,0.5,0.25)` is refused with tap count 3, which is odd but not a square |
| ValidationProofs.ThreeIsNotSquare | src/host/main.cpp:85 | 3 is not a perfect square |
| Validation.BlurFits | src/host/main.cpp:172-181 | the image fits exactly when the global range `main` dispatches, {width, height}, has no more dimensions than the device allows and each extent is within that dimension's work-item limit |
| ValidationProofs.SmallerImageFits | src/host/main.cpp:172-175 | a device that accepts an image accepts every image no wider and no taller |
| ValidationProofs.FitIgnoresGroupLimits | src/host/main.cpp:171-176 | the predicate's answer never depends on the reported work-group size or local memory |
| ValidationProofs.GetlineFields | src/host/main.cpp:60-67 | `a,,b` keeps the interior empty field, `a,` and `,` open no field after the final comma, and the empty string gives no field |
| BlurMain.AddAll | src/host/main.cpp:134-159 | a run of addArgument calls succeeds exactly when its slots are distinct and free; the first refusal names one of its slots; earlier entries and calls are kept and only buffer creation and upload calls are added |
| BlurMain.AddAllRegisters | src/host/main.cpp:134-159 | a successful run registers each call's argument at its slot with exactly that call's parameters |
| BlurMain.AddAllSlots | src/host/main.cpp:134-159 | a successful run adds exactly its own slots |
| BlurMain.AddAllUploads | src/host/OpenCL.cpp:86-91 | every call of a successful run that asks for an upload has its host data written to its own buffer |
| BlurMain.AddAllUploadsOnlyFlagged | src/host/OpenCL.cpp:86-91 | a successful run of registrations uploads only the buffers of the calls that ask for an upload: a call with writeBuffer unset gets a buffer and no upload |
| BlurMain.Plan | src/host/main.cpp:134-159 | six registrations at slots 0 to 5 in order; every one is uploaded except the output image at slot 1, which alone is write-only; only the input pixels (with `stbi_image_free`) and the output array (with `free`) carry a callback, both of the image's size; the filter taps have the filter's size and the three integers `sizeof(cl_int)` |
| BlurMain.PlanSlots | src/host/main.cpp:134-159 | the six registrations name slots 0 to 5, one each, so they can be refused only when one of those slots is taken |
| BlurMain.RegisterPlan | src/host/main.cpp:134-159 | registration succeeds exactly when slots 0 to 5 are free; the handle returned is the output image's, at slot 1, write-only, the image's size, on the output array, with no upload |
| BlurMain.PlanRegistersOutput | src/host/main.cpp:139-143 | the second registration's argument is the output image's argument at slot 1 |
| BlurMain.LoadInputs | src/host/main.cpp:100-124 | the checks run in the source's order (argument count, image, filter), each refusal with its own error, the filter refusal carrying the filter's tap count; accepted inputs keep the decoded width, height and data, have three channels and the image's byte size, and carry the selected filter's taps with a square, odd dimension |
| BlurMain.Registration | src/host/main.cpp:131-159 | on a fresh session the registration always succeeds |
| BlurMain.FitCheck | src/host/main.cpp:169-176 | the predicate `main` passes accepts a device exactly when the image fits it |
| BlurMain.Finish | src/host/main.cpp:182-196 | after the gate the arguments are kept and every owned buffer leaves the live set; the earlier calls are kept, followed by the dispatch of the {width, height} range, the blocking read of the output argument, and then only release and callback calls |
| BlurMain.Execute | src/host/main.cpp:166-196 | after the inputs are accepted, the run completes exactly when the capability predicate accepts the device; otherwise it exits with the capability error after the calls made up to the check |
| BlurMain.Run | src/host/main.cpp:97-196 | the run completes exactly when there are one or two arguments, the image decodes with three channels, the filter passes the tap-count test and the device holds the image; inputs are refused exactly when the run exits without any call, and then with the refusal's own error; accepted inputs start with the context and the queue, and a run that then exits does so with the capability error |
| BlurMainProofs.AddAllKeepsValid | src/host/main.cpp:134-159 | a run of addArgument calls keeps the registry invariant, whether it succeeds or stops early |
| BlurMainProofs.PlanFromSetup | src/host/main.cpp:131-159 | on a fresh session the six registrations succeed and fill exactly slots 0 to 5 |
| BlurMainProofs.PlanKeepsValid | src/host/main.cpp:131-159 | the registrations leave the registry invariant holding |
| BlurMainProofs.PlanBuffers | src/host/main.cpp:134-159 | every registered argument owns a device buffer, and every one except the output image (slot 1) is uploaded |
| BlurMainProofs.OutputNeverUploaded | src/host/main.cpp:139-143 | no upload call of the registration writes the output image's buffer |
| BlurMainProofs.RegisteredWithoutUpload | src/host/OpenCL.cpp:86-91 | on a valid session with no earlier upload, registrations at slots 0, 1, ... never upload the buffer of an argument registered with writeBuffer unset |
| BlurMainProofs.PreparedValid | src/host/main.cpp:131-166 | the session at the capability check satisfies the registry invariant and holds exactly slots 0 to 5 |
| BlurMainProofs.PreparedCalls | src/host/main.cpp:131-166 | up to the capability check the calls start with the context and the queue and are only buffer creation, upload, build and binding calls |
| BlurMainProofs.RefusedDeviceStopsBeforeDispatch | src/host/main.cpp:172-177 | a refused device ends the run with the capability error: nothing is dispatched, nothing read back, no buffer released and no callback invoked |
| BlurMainProofs.DispatchAndRead | src/host/main.cpp:182-186 | dispatch and read-back add exactly the range call for {width, height} and the read of the output argument, and leave the registry as it was |
| BlurMainProofs.NothingReleasedBeforeRelease | src/host/main.cpp:131-186 | no buffer is released before release |
| BlurMainProofs.OutputHandle | src/host/main.cpp:139-143 | the handle read back is the registered output argument, on the output array, with the image's size |
| BlurMainProofs.SixBuffers | src/host/main.cpp:134-159 | the prepared session owns exactly six buffers, one per slot |
| BlurMainProofs.CompletedRun | src/host/main.cpp:182-196 | an accepted device sees the preparation calls unchanged, then one dispatch over {width, height}, then a blocking read of the output into the output array, with no buffer released before the read; then each of the six buffers released exactly once, with none left live, ending with the queue and the context |
| BlurMainProofs.CompletedRunFreesHostArrays | src/host/main.cpp:134-143 | a completed run hands the decoded pixels to `stbi_image_free` and then the output array to `free`, once each, and runs no other callback |
| BlurMainProofs.FinishDispatchesOnce | src/host/main.cpp:180-196 | after a passed gate the only dispatch is the one right after the preparation calls, over {width, height} |
| BlurMainProofs.ExecuteDispatchWithinLimits | src/host/main.cpp:170-183 | on accepted inputs every dispatch is a 2-D range {width, height} within the device's per-dimension limits; a device with fewer than two dimensions or a limit below either extent gets no dispatch; a completed run dispatches |
| BlurMainProofs.DispatchWithinLimits | src/host/main.cpp:170-183 | for the whole program: every dispatch has the decoded image's extents as its global range and fits the device's limits in both dimensions; when either extent exceeds its limit, or the device has fewer than two dimensions, nothing is dispatched; with no image nothing is called |
| BlurMainProofs.DefaultFilterRun | src/host/main.cpp:104-108 | with no filter argument only the image and the device can stop the run |

## Left out

- Platform and device enumeration, and the no-platform and no-device exits in `setup`: foreign calls; the session starts at the created context and queue.
- `checkStatus` and `cl_errorstring`: every OpenCL call is taken to succeed, and the only failures modelled are the host's own checks.
- `printCompilerError`, reading the kernel source file and the program build: `createKernel` is one build call followed by the bindings.
- The kernel's arithmetic and the device's execution: the dispatch and read-back are recorded as calls with no effect on host data.
- `clGetDeviceInfo` queries: the device's limits are a parameter of the run.
- `waitForEvents`, and the local-size and event parameters of `enqueueKernel`: `main` passes none of them.
- Image decoding with `stbi_load`, writing `blurred.png` and every `printf`: I/O. The decoder's outcome is a parameter.
- `malloc` of the output array: its address is a parameter, and a failed allocation is not modelled.
- `strToFloat` (`std::stof`): filter taps stay uninterpreted text.
- Validation.LoadSmoothKernel: the only test modelled is the tap count. In the source, a filter that passes it still has every tap converted by `std::stof`, which throws on an empty, non-numeric or out-of-range tap; nothing catches the exception, so the program terminates before `setup`. The model accepts such a filter, for example `(x)` or `(1,,2,3,4,5,6,7,8)`.
- BlurMain.Run: for the same reason, a run whose filter passes the count test but holds a tap `std::stof` rejects completes in the model, where the source terminates before any device call.
- Validation.ISqrt: models `std::floor(sqrt(length))` as the exact integer square root. For tap counts far beyond any filter, floating-point rounding in the source could differ.
- Validation.LoadImage: does not model the `int` overflow of `width * height * channels` for very large images. The size is the exact product.
- `maxWorkGroupSize` and `maxLocalMemory`: the capability lambda does not read them.
- The four-parameter predicate type in `OpenCL.h` against the three-parameter lambda in `main`: the model follows the lambda.
- Concurrency between host and device: none is visible at the host level.
- Registry.ChangeArgumentIndex: argument handles are values, not shared objects. The caller must continue with the returned handle. A value held from before the move is stale: passing it to `RemoveArgument` erases the vacated slot, where the source's shared object would carry the new index.
- `enqueueKernel` arity: `main` calls it with three arguments while `OpenCL.h` declares seven with no defaults. The model follows the call in `main`: a two-dimensional range, with no local size and no events.
- `std::string` bytes are modelled as `char`s. Only the ASCII characters `(`, `)` and `,` are removed or split on, so no encoding question arises.
- Registry.AscendingSlots: `cl_uint` slots are modelled as the range 0 to 2^32-1 with no wrap-around. No operation does arithmetic on slots.
- `sizeof(cl_mem)` is taken as 8, as on a 64-bit host.
