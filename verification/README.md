# libsplitCL verification

libsplitCL runs one OpenCL kernel on several devices and has to give the answer a single device gives. This project
models the parts of it that make that true and proves them in Dafny 4.11 (`dafny verify dfyconfig.toml`).

## What is modelled

**Interval sets** (`Intervals`). `ListInterval` is a class whose list is edited in place as in the original; its ghost
value is a set of byte offsets. `remove` is the one hard operation: two half-block scans, then a split, trims and a
range erasure.

**Coherence** (`Coherence`, `Transfers`, `KernelSteps`, `Runs`, `BufferCreation`, with the classes and methods of
`MemoryHandles`, `BufferManagers` and `Drivers`). Each buffer has a host copy and a copy on every device, with a
validity set for each. A ghost *content* maps the bytes defined so far to their logical values. *Coherent* means that a
byte marked valid anywhere has its logical value there, and that every defined byte is valid somewhere. Reads, writes,
fills, copies, transfers, split and shifted kernel launches keep this, over every run. The class methods are proved
equal to the value-level steps, and the theorems are about those.

**Region analysis** (`IndexExprs`, `Bounds`, `BoundsArithmetic`, `RemainderBounds`, `BoundsSoundness`, `MaskBounds`,
`Evaluation`, `NDRanges`, `WorkItems`, `KernelExprs`, `KernelExprsSoundness`, `WorkItemExprsSoundness`,
`ArgumentAnalyses`). Index expressions have a concrete meaning (the values they take in a work-item, with ids as in
section 6.12.1 of the OpenCL 1.2 specification) and an abstract one (bounds over a sub-NDRange narrowed by guards). The
first is contained in the second, so every byte a work-item accesses lies in the computed region. And the second is no
wider than it has to be (`BoundsTightness`, `KnownBounds`, `GuardExactness`, `UniformExprs`, `LinearUses`): the ends of
bounds are values of the expression, guards cut exactly the ids that fail them, and the region of a linear access is its
bytes.

**The two together** (`SplitSoundness`, `SubKernelInfos`). When the analysis returns SUCCESS, the launch the scheduler
builds from it meets every hypothesis of the coherence theorem: `SplitSoundness.AnalysedSplitRefinesSingleDevice`. The
fallback on one device (`SingleLaunches`) needs no answer of the analysis. After MERGE the pieces are widened until the
devices' claims cover what the pieces write; that launch (`ShiftedLaunches`, `ShiftedAnalyses`) runs some work-items on
several devices, lets claims overlap, and still ends as on one device. `NegotiatedLaunches` joins it to the negotiation:
the ranges, reads and claims that come out of it, after any number of rounds, are those of the theorem.

**Partitioning and negotiation** (`Tilings`, `Negotiations`). Requested shares are limited, rounded to work-groups,
compacted in place and turned into consecutive sub-NDRanges that tile the kernel; the loop between driver and scheduler
ends in the one answer of its specification.

**Guards** (`GuardNormalisation`, `ScaledConditions`), **storage** (`Serialisation`, `Streams`), the **command queue**
(`LockFreeQueues`, `QueueRuns`: all interleavings of single memory accesses of the two threads; `QueueProgress`: they
finish), the **atomic-sum
reduction** (`Reductions`, `ReductionSteps`), and the **linear program** of the multi-kernel scheduler
(`CommConstraints`, `GlpMatrices`).

`Arithmetic` and `Words` hold shared facts about integers and machine words.

## Where the code does not keep the property

- A buffer created with USE_HOST_PTR alone has no valid byte anywhere, so a read before the first write reaches the
  assertion; every other buffer starts coherent (`BufferCreation.NewBufferCoherent`, `NewMemoryCoherent`).
- The work-group ids the analysis computes are those of the kernel exactly when its global offset is zero
  (`KernelExprsSoundness.GroupIdsExact`).
- Under a guard on the global id, the computed local ids are complete exactly when the guarded ids stay in one group or
  are whole groups (`KernelExprsSoundness.LocalIdsExact`, with `LocalIdMissed`).
- The corner rule of Div is a bound exactly when the divisor interval has no zero in it or is [-1, 1]
  (`BoundsSoundness.DivCornersExact`), and that of Mod exactly where `RemainderBounds.ModApplies` holds
  (`RemainderBounds.ModCornersExact`, with `BoundsSoundness.ModCornersFail`).
- The corners of Or, And and Xor are no bounds (`BoundsSoundness.OrCornersFail`, `AndCornersFail`, `XorCornersFail`).
  They are on points, and for a natural operand and a mask 2^k - 1: Or always, And exactly when the operand stays within
  one block of 2^k or is made of whole ones, Xor exactly for one value or from the end of a block to the start of another
  (`MaskBounds.OrMaskBound`, `AndMaskExact`, `XorMaskExact`).
- Normalising a condition through Mul or Div keeps its truth exactly under the conditions of `ScaledConditions.MulExact`,
  `DivExact` and `DividendExact` (with `GuardNormalisation.MulChangesTruth` and `DivChangesTruth`); through Add and Sub
  it always does. Unsigned comparisons are recorded as signed ones, which is right exactly when both sides have the same
  sign (`GuardNormalisation.SignedReadingExact`).
- Atomic sums on CHAR and UCHAR arguments are not reduced; all wider integers are (`Reductions.ReducedTypes`).
- `adaptGranudscr` writes its cap at slot `i` instead of the compacted slot. The kept shares add up to one exactly when
  the counts reach all work-groups never, exactly, or without an empty request before (`Tilings.SharesAddUp`, with
  `Tilings.SharesExceedOne`). The pieces are right all the same, because the last one takes what is left
  (`Tilings.Partition`).
- The part behind a widened piece takes its size from that piece. It ends with the range exactly when no group is left
  there, or groups have one work-item and one fewer of them is left than the piece has (`Negotiations.ShiftedTiles`, with
  `TailMissesEnd`). As long as fewer groups are left than the piece has, the parts still run all work-items
  (`ShiftedAnalyses.ShiftedRunsAll`); otherwise work-items in no part may store what a device claims.
- The parts of a shifted partition carry their own size in place of the kernel's, so get_global_size and get_num_groups of
  the split dimension are analysed wrongly unless the widened piece is the whole range
  (`ShiftedAnalyses.ShiftedSizeExact`).
- Whether the claims cover what the pieces write is tested for the arguments to merge only
  (`Negotiations.SubKernelSchedInfo.CheckShift`); `ShiftedAnalyses.ClaimsCover` asks it of every argument.

## Conventions

Byte offsets and sizes are naturals; `long` is a mathematical integer and `double` a real number. Transfers take effect
in queue order, because the queues are in order. Every global argument has its own buffer. Where the model assumes
something of its caller that the code only asserts, it is a `requires`.

## Model

| member | source | states |
|---|---|---|
| `Intervals.CanonicalUnique` | LibKernelExpr/src/ListInterval.cpp:20-57 | Canonical lists (sorted, disjoint, non-adjacent) are a normal form: two of them are equal if and only if they denote the same set of bytes. |
| `Intervals.ListInterval.Add` | LibKernelExpr/src/ListInterval.cpp:20-57 | `add` keeps the list canonical and adds exactly the bytes of the interval, whatever it overlaps or touches. |
| `Intervals.ListInterval.MergeSorted` | LibKernelExpr/src/ListInterval.cpp:33-56 | The merge pass over a list sorted by lower bound gives a canonical list of the same bytes. |
| `Intervals.ListInterval.Remove` | LibKernelExpr/src/ListInterval.cpp:59-210 | `remove` keeps the list canonical and removes exactly the bytes of the interval: set difference in place, for every list and interval. |
| `Intervals.ListInterval.LowIndex` | LibKernelExpr/src/ListInterval.cpp:91-109 | The scan for the lower end stays in bounds and stops at the half-block that contains the lower bound. |
| `Intervals.ListInterval.HighIndex` | LibKernelExpr/src/ListInterval.cpp:111-129 | The scan for the upper end stays in bounds and stops at the half-block that contains the upper bound. |
| `Intervals.ListInterval.RemoveSameIndex` | LibKernelExpr/src/ListInterval.cpp:134-168 | With equal half-block indices the split, the two trims and the no-op give the list with the interval cut out. |
| `Intervals.ListInterval.TrimLower` | LibKernelExpr/src/ListInterval.cpp:176-187 | The first touched block keeps only its part below the interval, and the erasure starts right after what is kept. |
| `Intervals.ListInterval.TrimHigher` | LibKernelExpr/src/ListInterval.cpp:189-200 | The last touched block keeps only its part above the interval, and the erasure ends right before what is kept. |
| `Intervals.ListInterval.RemoveBetween` | LibKernelExpr/src/ListInterval.cpp:170-209 | With different indices, trimming both ends and erasing between gives the list with the interval cut out. |
| `Intervals.RemoveIsDifference` | LibKernelExpr/src/ListInterval.cpp:59-210 | The two scans never cross, and cutting at the half-blocks they find is canonical and denotes the set difference. |
| `Intervals.ListInterval.MyUnion` | LibKernelExpr/src/ListInterval.cpp:231-235 | `myUnion` is set union and keeps the canonical form. |
| `Intervals.ListInterval.Difference` | LibKernelExpr/src/ListInterval.cpp:237-241 | `difference` in place is set difference and keeps the canonical form. |
| `Intervals.ListInterval.Intersection` | LibKernelExpr/src/ListInterval.cpp:243-256 | The static `intersection` is a fresh canonical list of exactly the common bytes. |
| `Intervals.ListInterval.DifferenceOf` | LibKernelExpr/src/ListInterval.cpp:258-267 | The static `difference` is a fresh canonical list of exactly the bytes of the first list not in the second, undefined if the first list is. |
| `Intervals.ListInterval.Total` | LibKernelExpr/src/ListInterval.cpp:279-286 | `total` is the cardinality of the denoted set. |
| `Intervals.ListInterval.Clone` | LibKernelExpr/src/ListInterval.cpp:223-229 | `clone` is a different object with the same list and flag. |
| `Intervals.IntersectIntervals` | LibKernelExpr/src/Interval.cpp:20-30 | Reports an overlap if and only if the two intervals share a byte, and then returns exactly the shared bytes. |
| `Coherence.CurrentIsLatest` | libsplit/src/BufferManager.cpp:18-110 | In a coherent state the copy the runtime would choose for a defined byte (host first, then the first valid device) holds its latest logical value. |
| `Coherence.ReadReturnsLatest` | libsplit/src/BufferManager.cpp:18-110 | A read of defined bytes never reaches its assertion and returns the latest logical values. |
| `Coherence.WriteHostCoherent` | libsplit/src/BufferManager.cpp:147-156 | A delayed write keeps a buffer coherent with the logical content overlaid by the data. |
| `Coherence.WriteDevicesCoherent` | libsplit/src/BufferManager.cpp:121-141 | An immediate write to all devices keeps a buffer coherent with the overlaid content. |
| `Coherence.GatherCoherent` | libsplit/src/BufferManager.cpp:168-219 | Bringing a defined range to the host keeps a buffer coherent with the same content. |
| `Runs.CopyCoherent` | libsplit/src/BufferManager.cpp:159-233 | A copy, between buffers or within one, keeps memory coherent with the content in which the destination range takes the source values. |
| `Runs.StepCoherent` | libsplit/src/BufferManager.cpp:18-233 | Every legal step (read, write, fill, copy, split or shifted kernel launch) keeps memory coherent with the content a single memory would have, and a read observes what it would observe there. |
| `Runs.RunCoherent` | libsplit/src/BufferManager.cpp:18-233 | Over every legal run, the multi-copy memory stays coherent and all reads return what the same run on one memory returns. |
| `Runs.RunFromCreation` | libsplit/src/Handle/MemoryHandle.cpp:45-109 | The same from newly created buffers on, none of them created with USE_HOST_PTR alone: the runs have a proved initial state. |
| `BufferCreation.NewBufferCoherent` | libsplit/src/Handle/MemoryHandle.cpp:45-109 | A new buffer is coherent with its initial content if and only if COPY_HOST_PTR is given or USE_HOST_PTR is not: with USE_HOST_PTR alone no byte is ever marked valid. |
| `BufferCreation.NewMemoryCoherent` | libsplit/src/Handle/MemoryHandle.cpp:45-109 | The memory of all new buffers is coherent with the content OpenCL promises if and only if none is created with USE_HOST_PTR alone. |
| `MemoryHandles.MemoryHandle.constructor` | libsplit/src/Handle/MemoryHandle.cpp:15-109 | The constructor builds the initial state: local buffer, used size, and validity of the host copy according to the flags. |
| `MemoryHandles.InitialData` | libsplit/src/Handle/MemoryHandle.cpp:45-109 | The local buffer and the used size at creation, for every combination of flags. |
| `MemoryHandles.MemoryHandle.TransferD2H` | libsplit/src/Driver.cpp:629-656 | One D2H list entry copies exactly the bytes of its region to the host and adds them to the host validity. |
| `MemoryHandles.MemoryHandle.TransferH2D` | libsplit/src/Driver.cpp:698-734 | One H2D list entry copies exactly the bytes of its region to the device and adds them to that device validity. |
| `BufferManagers.NothingMissing` | libsplit/src/BufferManager.cpp:55-68 | After all devices have been asked, nothing is missing if and only if every byte of the range is valid on the host or on some device. |
| `BufferManagers.BufferManager.Read` | libsplit/src/BufferManager.cpp:18-110 | The loop fails exactly when some byte is valid nowhere; otherwise each byte of the user range comes from the host or the first valid device, and nothing outside the range is touched. |
| `BufferManagers.BufferManager.ComputeReads` | libsplit/src/BufferManager.cpp:50-68 | The intervals planned for each device are exactly the bytes the host and the earlier devices do not hold: each byte has one provider. |
| `BufferManagers.BufferManager.SplitByHost` | libsplit/src/BufferManager.cpp:25-45 | A range is split into exactly what the host holds and what it does not. |
| `BufferManagers.BufferManager.CopyFromDevices` | libsplit/src/BufferManager.cpp:70-98 | Copying the planned intervals completes the user range. |
| `BufferManagers.CopyOut` | libsplit/src/BufferManager.cpp:34-41 | Copying a list of intervals to the user pointer gives exactly those bytes their source value, at the right displacement, and leaves every other byte of the range as it was. |
| `BufferManagers.BufferManager.Write` | libsplit/src/BufferManager.cpp:112-157 | The new state of the handle after a write, delayed or not, is the specified one. |
| `BufferManagers.BufferManager.WriteThrough` | libsplit/src/BufferManager.cpp:121-141 | An immediate write stores on all devices, adds the range to each device and removes it from the host. |
| `BufferManagers.BufferManager.WriteLocal` | libsplit/src/BufferManager.cpp:147-156 | A delayed write stores in the local buffer, adds the range to the host and removes it from every device. |
| `BufferManagers.BufferManager.FetchMissing` | libsplit/src/BufferManager.cpp:168-217 | Fails exactly when a byte is valid nowhere; otherwise the local buffer holds the current value of every byte of the range. |
| `BufferManagers.BufferManager.FetchFromDevices` | libsplit/src/BufferManager.cpp:183-209 | The fetch loop reads every byte from the first device that has it and leaves what nobody has as missing. |
| `BufferManagers.BufferManager.EnsureLocal` | libsplit/src/BufferManager.cpp:168-219 | After the fetch the range is also valid on the host. |
| `BufferManagers.BufferManager.CopyLocal` | libsplit/src/BufferManager.cpp:168-233 | Once the source range is current on the host, the destination takes it as a delayed write, also within one buffer. |
| `BufferManagers.BufferManager.Copy` | libsplit/src/BufferManager.cpp:159-233 | The new states of source and destination, also when they are the same buffer; fails exactly when a source byte is valid nowhere. |
| `BufferManagers.BufferManager.Fill` | libsplit/src/BufferManager.cpp:312-336 | A fill goes to every device and leaves the host copy; every byte of the range read back afterwards is the pattern byte at that place. |
| `Coherence.FillReadBack` | libsplit/src/BufferManager.cpp:312-336 | What is read back after a fill starts with the pattern and repeats with its length. |
| `Transfers.ProvidersCover` | libsplit/src/BufferManager.cpp:568-588 | Each planned provider holds the bytes it is asked for and is not the target; every missing byte is provided or valid on no other device. |
| `Transfers.PlanEntryCorrect` | libsplit/src/BufferManager.cpp:501-597 | For one required region: sources hold what they send, the host holds or receives all that is sent on, and every byte that is not left out for want of a holder is sent. |
| `Transfers.PlanEntryMinimal` | libsplit/src/BufferManager.cpp:501-597 | For one required region: at most one transfer to the device, no byte it already holds, and no byte fetched from two devices or fetched though the host has it. |
| `Transfers.PlanAllCorrect` | libsplit/src/BufferManager.cpp:501-597 | The same for a whole list of required regions, planned from one snapshot of the validity sets. |
| `Transfers.PlanAllMinimal` | libsplit/src/BufferManager.cpp:501-597 | Every planned transfer serves a listed region: a device is sent only required bytes it does not hold and somebody holds, and the host only such bytes it does not hold either. |
| `Transfers.D2HCoherent` | libsplit/src/Driver.cpp:620-659 | D2H transfers of valid bytes keep memory coherent, only grow host validity, and leave every transferred byte host-valid. |
| `Transfers.H2DCoherent` | libsplit/src/Driver.cpp:698-734 | H2D transfers of host-valid bytes keep memory coherent, only grow device validity, and leave every transferred byte valid on its device. |
| `Transfers.TransferPlanCorrect` | libsplit/src/BufferManager.cpp:501-597 | Although planned from one snapshot, after D2H then H2D every defined required byte is valid on its device, H2D sends only bytes that are host-valid at that point, and memory is coherent with the same content. |
| `Drivers.RestrictRequired` | libsplit/src/BufferManager.cpp:506-521 | An undefined required region becomes the whole (or, for read-only buffers, the used) buffer, and every region is cut to the buffer size. |
| `Drivers.RequiredList` | libsplit/src/BufferManager.cpp:506-517 | An undefined required region becomes the whole buffer, or for a read-only one what is used of it. |
| `Drivers.FindProviders` | libsplit/src/BufferManager.cpp:568-588 | The loop over devices, with its early exit, yields exactly the specified provider list and remainder. |
| `Drivers.TakeFrom` | libsplit/src/BufferManager.cpp:572-587 | One device provides exactly what it holds of the missing bytes; the loop stops once something was provided and nothing is missing. |
| `Drivers.PlanRegion` | libsplit/src/BufferManager.cpp:501-597 | The imperative planning of one region, with its three exits, yields the specified plan and changes no state. |
| `Drivers.PlanFromDevices` | libsplit/src/BufferManager.cpp:566-597 | What no device provides is taken out of the H2D transfer. |
| `Drivers.ComputeTransfers` | libsplit/src/BufferManager.cpp:501-597 | The whole planning loop yields the specified plan, changes no validity set, and replaces every required region by its restriction to the (used) buffer. |
| `Drivers.StartD2HTransfers` | libsplit/src/Driver.cpp:620-659 | The loop performs the D2H list in order, data and validity. |
| `Drivers.StartH2DTransfers` | libsplit/src/Driver.cpp:698-734 | The loop performs the H2D list in order, data and validity. |
| `Drivers.EnqueueExec` | libsplit/src/Driver.cpp:938-955 | A sub-kernel changes the copies of its own device only, as running its work-items on them does. |
| `Drivers.InvalidateElsewhere` | libsplit/src/Driver.cpp:957-969 | The written region leaves the host and every device but the writer. |
| `Drivers.EnqueueSubKernels` | libsplit/src/Driver.cpp:930-975 | Sub-kernels run on their devices, then all invalidations and after them all claims are applied. |
| `Drivers.ResolveWritten` | libsplit/src/BufferManager.cpp:442-451 | An undefined written region claims the whole buffer. |
| `Drivers.ResolveEntry` | libsplit/src/BufferManager.cpp:442-451 | The same for one entry. |
| `Drivers.LaunchKernel` | libsplit/src/Driver.cpp:489-532 | Planning, D2H, H2D, sub-kernels and validity update change the handles exactly as the launch of the refinement theorem. |
| `KernelSteps.InvalidateAllAt` | libsplit/src/Driver.cpp:957-969 | Which bytes are still valid where after the first loop: those no other device claims. |
| `KernelSteps.ClaimAllAt` | libsplit/src/Driver.cpp:970-974 | Which bytes are valid where after the second loop: those that were, and those the device claims. |
| `KernelSteps.UpdateValidityAt` | libsplit/src/Driver.cpp:957-974 | After both loops a byte is host-valid if it was and nobody claims it, and device-valid if that device claims it, or it was and no other device claims it. |
| `KernelSteps.DevicesAgreeAfterTransfers` | libsplit/src/Driver.cpp:489-532 | After the transfers every byte a device needs, or alone writes, has there the single-device value; over-approximate writes are safe because they are also required. |
| `KernelSteps.SubKernelsAgree` | libsplit/src/Driver.cpp:930-955 | Running any prefix of the sub-kernels on their devices stores what a single device running the same prefix stores. |
| `KernelSteps.ExecutedCoherent` | libsplit/src/Driver.cpp:957-974 | The validity update makes memory coherent with the content the single device ends with. |
| `KernelSteps.SplitRefinesSingleDevice` | libsplit/src/Driver.cpp:489-532 | A legal split launch from a coherent memory ends in a memory coherent with what a single device computes. |
| `Bounds.FoldOperands` | LibKernelExpr/src/IndexExpr/IndexExpr.cpp:585-613 | The Min and Max loops compute the pointwise minimum (maximum) of all operand bounds. |
| `Bounds.EvaluateOperands` | LibKernelExpr/src/IndexExpr/IndexExpr.cpp:631-1021 | The operand loop of Min and Max stops at the first operand without bounds, as the specification of the evaluator does. |
| `BoundsArithmetic.MulCorners` | LibKernelExpr/src/IndexExpr/IndexExpr.cpp:463-563 | A product of integers lies between the least and the greatest of the four corner products. |
| `BoundsArithmetic.RealMulCorners` | LibKernelExpr/src/IndexExpr/IndexExpr.cpp:463-563 | The same for reals. |
| `BoundsArithmetic.DivInCorners` | LibKernelExpr/src/IndexExpr/IndexExpr.cpp:463-563 | A real quotient lies between the corner quotients when the divisor interval is positive or negative. |
| `BoundsArithmetic.QuotInCorners` | LibKernelExpr/src/IndexExpr/IndexExpr.cpp:463-563 | A truncated quotient lies between the truncated corner quotients when the divisor interval excludes zero. |
| `RemainderBounds.RemSpan` | LibKernelExpr/src/IndexExpr/IndexExpr.cpp:511-517 | A C remainder has the sign of the dividend, is no further from zero than it, and closer than the divisor; a dividend smaller than the divisor is its own remainder. |
| `RemainderBounds.ModIsBound` | LibKernelExpr/src/IndexExpr/IndexExpr.cpp:511-517 | Where ModApplies says so, the Mod rule bounds the remainder of every two operands. |
| `RemainderBounds.ModCornersExact` | LibKernelExpr/src/IndexExpr/IndexExpr.cpp:511-517 | For all intervals but the divisor [0, 0]: the Mod rule bounds all remainders if and only if ModApplies, a test on the four ends (non-negative dividends, or dividends smaller than every divisor, or a divisor of one, and the matching cases when the divisor interval reaches below one). |
| `BoundsArithmetic.ShiftLeftCorners` | LibKernelExpr/src/IndexExpr/IndexExpr.cpp:463-563 | Left shifts of non-negative operands lie between their corners. |
| `BoundsArithmetic.ShiftRightCorners` | LibKernelExpr/src/IndexExpr/IndexExpr.cpp:463-563 | Right shifts of non-negative operands lie between their corners. |
| `BoundsSoundness.LongBoundsSound` | LibKernelExpr/src/IndexExpr/IndexExpr.cpp:463-563 | Wherever the corner rule of the operator applies (for Div and Mod the exact conditions, for Or, Xor and And one point for each operand), the value of a `long` operation lies within the computed bounds; BoundsTightness.LongBoundsTight says the bounds are no wider. |
| `BoundsSoundness.RealBoundsSound` | LibKernelExpr/src/IndexExpr/IndexExpr.cpp:463-563 | The same for floating operands over the reals. |
| `BoundsSoundness.CastSound` | LibKernelExpr/src/IndexExpr/IndexExpr.cpp:631-1021 | A cast of a value lies within the cast bounds. |
| `BoundsSoundness.HullSound` | LibKernelExpr/src/IndexExpr/IndexExpr.cpp:565-583 | A value between two others lies within the hull of their bounds (interval and indirection nodes). |
| `BoundsSoundness.FoldSound` | LibKernelExpr/src/IndexExpr/IndexExpr.cpp:585-613 | The minimum (maximum) of two values lies within the combined bounds. |
| `BoundsSoundness.BoundsSound` | LibKernelExpr/src/IndexExpr/IndexExpr.cpp:631-1021 | Over whole trees: every value the expression can take in a work-item lies within the computed bounds. |
| `BoundsSoundness.BoundsOrdered` | LibKernelExpr/src/IndexExpr/IndexExpr.cpp:631-1021 | On a well-typed tree whose corner rules apply no assertion fails, and bounds that exist have lb <= hb and the type of the tree. |
| `BoundsTightness.LongBoundsTight` | LibKernelExpr/src/IndexExpr/IndexExpr.cpp:464-563 | Whenever a corner rule other than Mod gives bounds for integer intervals, each end is the value of the operator on an end of either interval, so no narrower bounds are right. |
| `BoundsTightness.RealBoundsTight` | LibKernelExpr/src/IndexExpr/IndexExpr.cpp:464-563 | The same for floating operands over the reals. |
| `BoundsTightness.ModTightExact` | LibKernelExpr/src/IndexExpr/IndexExpr.cpp:511-517 | For natural dividends and positive divisors: the lower (upper) end of the Mod rule is a remainder of operands of the intervals if and only if the stated test on multiples holds. |
| `BoundsTightness.ModPointExact` | LibKernelExpr/src/IndexExpr/IndexExpr.cpp:511-517 | On two numbers the Mod rule gives exactly their remainder if and only if the dividend is smaller, also in magnitude, or the divisor is one and the dividend positive. |
| `BoundsTightness.CastsRound` | LibKernelExpr/src/IndexExpr/IndexExpr.cpp:631-1021 | A cast to an integer drops the fraction, FLOOR rounds down, and integers and floats survive a widening cast and back. |
| `BoundsTightness.BoundsTight` | LibKernelExpr/src/IndexExpr/IndexExpr.cpp:631-1021 | Over whole trees without remainders, end nodes and indirections: both ends of the computed bounds are values the expression can take in any work-item. |
| `BoundsTightness.FoldsTight` | LibKernelExpr/src/IndexExpr/IndexExpr.cpp:585-613 | So are the ends of a Min or Max node over any number of operands. |
| `BoundsTightness.BoundsExact` | LibKernelExpr/src/IndexExpr/IndexExpr.cpp:631-1021 | Where the corner rules apply, a range contains every value of such a tree if and only if it contains the computed bounds. |
| `BoundsTightness.EndNodes` | LibKernelExpr/src/IndexExpr/IndexExpr.cpp:615-629 | Lb is the least and Hb the greatest value of such a tree. |
| `BoundsTightness.IndirTight` | LibKernelExpr/src/IndexExpr/IndexExpr.cpp:575-583 | The bounds of an indirection are the two values read back for it, in order. |
| `KnownBounds.MissingExact` | LibKernelExpr/src/IndexExpr/IndexExpr.cpp:631-1021 | On a well-typed tree whose corner rules apply the bounds are missing if and only if some leaf has none. |
| `KnownBounds.KernelBoundsKnown` | LibKernelExpr/src/WorkItemExpr.cpp:42-52 | The bounds of a use over a sub-kernel are missing if and only if some leaf is a null child, an unknown, an argument without value, an id of a computed dimension, or an indirection without values. |
| `KnownBounds.IndirExpr` | LibKernelExpr/src/IndexExpr/IndexExprIndirection.cpp:70-98 | The values read back for an indirection keep their places. |
| `BoundsSoundness.DivCornersExact` | LibKernelExpr/src/IndexExpr/IndexExpr.cpp:463-563 | The Div rule bounds every quotient if and only if the divisor interval excludes zero or is [-1, 1]. |
| `BoundsSoundness.ModCornersFail` | LibKernelExpr/src/IndexExpr/IndexExpr.cpp:511-517 | With a negative dividend the Mod bounds miss a remainder (concrete input); RemainderBounds.ModCornersExact is the condition. |
| `BoundsSoundness.OrCornersFail` | LibKernelExpr/src/IndexExpr/IndexExpr.cpp:519-525 | The corners of Or miss a value (concrete input); BoundsSoundness.LongBoundsSound has them right on points, MaskBounds.OrMaskBound says when they are right for a mask. |
| `BoundsSoundness.AndCornersFail` | LibKernelExpr/src/IndexExpr/IndexExpr.cpp:535-541 | The corners of And miss a value (concrete input); BoundsSoundness.LongBoundsSound has them right on points, MaskBounds.AndMaskExact says when they are right for a mask. |
| `BoundsSoundness.XorCornersFail` | LibKernelExpr/src/IndexExpr/IndexExpr.cpp:527-533 | The corners of Xor miss a value (concrete input); BoundsSoundness.LongBoundsSound has them right on points, MaskBounds.XorMaskExact says when they are right for a mask. |
| `MaskBounds.OpMask` | LibKernelExpr/src/IndexExpr/IndexExpr.cpp:519-541 | On a natural number a mask 2^k - 1 keeps (And), sets (Or) or complements (Xor) exactly the remainder modulo 2^k. |
| `MaskBounds.AndMaskExact` | LibKernelExpr/src/IndexExpr/IndexExpr.cpp:535-541 | For a natural operand and a mask 2^k - 1 the And rule gives bounds that hold every value if and only if the operand interval stays within one block of 2^k or is made of whole blocks. |
| `MaskBounds.OrMaskBound` | LibKernelExpr/src/IndexExpr/IndexExpr.cpp:519-525 | For a natural operand and such a mask the Or rule always does. |
| `MaskBounds.XorMaskExact` | LibKernelExpr/src/IndexExpr/IndexExpr.cpp:527-533 | For a natural operand and such a mask the Xor rule does if and only if the operand is one value or runs from the last number of a block to the first of another. |
| `KernelExprs.GuardedSpans` | LibKernelExpr/src/IndexExpr/IndexExprOCL.cpp:203-221 | The guard loop narrows the spans of the global, group and local ids of a dimension by exactly the guards on them. |
| `KernelExprs.CheckOutOfGuards` | LibKernelExpr/src/WorkItemExpr.cpp:113-285 | The loop computes the search of the specification: it stops at the first guard that excludes the whole span of its id, answering true, or at the first inequality it reaches, answering false. |
| `KernelExprs.FindIndirFirst` | LibKernelExpr/src/IndexExpr/IndexExprIndirection.cpp:81-96 | Values are found for an indirection if and only if some entry has its id, and then they are those of the first such entry. |
| `KernelExprs.LookUpIndir` | LibKernelExpr/src/IndexExpr/IndexExprIndirection.cpp:81-91 | The loop finds these values. |
| `KernelExprsSoundness.ApplyGuardSound` | LibKernelExpr/src/IndexExpr/IndexExprOCL.cpp:113-156 | An id that meets a guard is in the narrowed span. |
| `KernelExprsSoundness.ApplyGuardsSound` | LibKernelExpr/src/IndexExpr/IndexExprOCL.cpp:203-221 | The same for all guards on an id. |
| `KernelExprsSoundness.GlobalIdParts` | LibKernelExpr/src/IndexExpr/IndexExprOCL.cpp:223-229 | A global id splits into group and local id, shifted by the offset (section 6.12.1 of the OpenCL 1.2 specification). |
| `KernelExprsSoundness.GlobalIdsSound` | LibKernelExpr/src/IndexExpr/IndexExprOCL.cpp:185-233 | `get_global_id`: every id of the part that meets the guards is in the computed span. |
| `KernelExprsSoundness.GroupIdsSound` | LibKernelExpr/src/IndexExpr/IndexExprOCL.cpp:235-273 | `get_group_id`: the group of every such id is in the computed span when the kernel offset is zero. |
| `KernelExprsSoundness.GroupIdsExact` | LibKernelExpr/src/IndexExpr/IndexExprOCL.cpp:235-273 | Over all guard lists, the OpenCL group id of every id that meets the guards is in the computed span if and only if the kernel offset of the dimension is zero. |
| `KernelExprsSoundness.LocalIdsSound` | LibKernelExpr/src/IndexExpr/IndexExprOCL.cpp:275-310 | `get_local_id`: the local id of every such id is in the computed span, when the ends of the guarded global span are in order modulo the group size. |
| `KernelExprsSoundness.LocalEndsExact` | LibKernelExpr/src/IndexExpr/IndexExprOCL.cpp:303-306 | The remainders of the ends bound the remainders of a span if and only if the span lies in one group or starts and ends a group. |
| `KernelExprsSoundness.LocalIdsExact` | LibKernelExpr/src/IndexExpr/IndexExprOCL.cpp:275-310 | Without guards on the local id, the computed span contains the local ids of all guarded global ids if and only if these lie in one group or are whole groups. |
| `KernelExprsSoundness.LocalIdMissed` | LibKernelExpr/src/IndexExpr/IndexExprOCL.cpp:275-310 | A range of two groups and a guard on the global id for which the computed span misses a local id (concrete input). |
| `KernelExprsSoundness.OclSound` | LibKernelExpr/src/IndexExpr/IndexExprOCL.cpp:158-341 | The kernel expression of an OpenCL id or size call can take the value the call has in any work-item of the part that satisfies the guards. |
| `KernelExprsSoundness.KernelExprSound` | LibKernelExpr/src/WorkItemExpr.cpp:42-52 | Over whole trees: the kernel expression can take every value the expression has in such a work-item. |
| `KernelExprsSoundness.KernelExprListSound` | LibKernelExpr/src/IndexExpr/IndexExprMin.cpp:73-88 | The same for the operands of Min and Max. |
| `WorkItemExprsSoundness.KernelIndirsWithin` | LibKernelExpr/src/IndexExpr/IndexExpr.cpp:349-446 | If for every id the values of the first entry with that id lie around what the work-item reads, the bounds of every indirection of a kernel expression do. |
| `WorkItemExprsSoundness.SubKernelBoundsSound` | LibKernelExpr/src/WorkItemExpr.cpp:42-52 | The bounds computed for a sub-kernel contain every value its work-items give the expression. |
| `WorkItemExprsSoundness.SubKernelEnds` | LibKernelExpr/src/WorkItemExpr.cpp:42-52 | Lb and Hb of an expression become numbers below and above every value its work-items give it, and values the sub-kernel expression takes. |
| `WorkItemExprsSoundness.GuardValueExact` | LibKernelExpr/src/GuardExpr.cpp:129-148 | When `injectArgsValues` computes a guard value over the whole kernel, it is the value the guard expression has in every work-item. |
| `WorkItemExprsSoundness.OutOfGuardsSound` | LibKernelExpr/src/WorkItemExpr.cpp:113-285 | When `isOutOfGuards` answers true, no work-item of the part satisfies the guards. |
| `GuardExactness.ApplyGuardsExact` | LibKernelExpr/src/IndexExpr/IndexExprOCL.cpp:113-156 | For guards other than NEQ with a non-zero value: the narrowed span has exactly the ids of the span that meet the guards, if and only if there is such an id. |
| `GuardExactness.GlobalIdsExact` | LibKernelExpr/src/IndexExpr/IndexExprOCL.cpp:185-233 | `get_global_id`, without guards on local ids: the computed ids are exactly the ids of the part that meet their guards and whose group meets its guards. |
| `GuardExactness.GroupIdsReached` | LibKernelExpr/src/IndexExpr/IndexExprOCL.cpp:235-273 | `get_group_id`: the computed ids are exactly those that meet their guards and hold a guarded global id. |
| `GuardExactness.LocalIdsReached` | LibKernelExpr/src/IndexExpr/IndexExprOCL.cpp:275-310 | `get_local_id`, without guards on local ids and with ordered ends: the computed ids are exactly the places of the guarded ids. |
| `GuardExactness.IdBoundsExact` | LibKernelExpr/src/IndexExpr/IndexExprOCL.cpp:158-310 | The bounds of a call of an id function are exactly these ids. |
| `GuardExactness.SpanMissesExact` | LibKernelExpr/src/WorkItemExpr.cpp:113-285 | A guard is found to miss a span if and only if no id of the span satisfies it (NEQ aside). |
| `GuardExactness.OutOfGuardsExact` | LibKernelExpr/src/WorkItemExpr.cpp:113-285 | `isOutOfGuards` answers true if and only if some tested guard, with no tested NEQ guard up to it, excludes every id of the part. |
| `UniformExprs.UniformBounds` | LibKernelExpr/src/WorkItemExpr.cpp:42-52 | The kernel expression of a tree of constants, arguments and sizes has its value as both bounds. |
| `UniformExprs.UniformEvals` | LibKernelExpr/src/WorkItemExpr.cpp:42-52 | In every work-item such a tree has that value and no other. |
| `UniformExprs.GuardValueUniform` | LibKernelExpr/src/GuardExpr.cpp:130-148 | A guard on such a tree of integer value is given that value. |
| `ArgumentAnalyses.ComputeRegion` | LibKernelExpr/src/ArgumentAnalysis.cpp:880-920 | The region of the uses of one sub-kernel: the union of their bounds with negative ends moved to zero, up to the first use without bounds. |
| `ArgumentAnalyses.RegionContains` | LibKernelExpr/src/ArgumentAnalysis.cpp:880-920 | Every non-negative offset within the bounds of some use is in the region. |
| `LinearUses.RegionExact` | LibKernelExpr/src/ArgumentAnalysis.cpp:880-920 | Where all bounds are known the region has exactly the bytes within the bounds of some use; bounds below zero count as byte zero. |
| `LinearUses.LinearRegionExact` | LibKernelExpr/src/ArgumentAnalysis.cpp:880-920 | For an access to the n bytes from get_global_id * a + c on, with |a| <= n, under guards on global and group ids: a byte is in the region if and only if an id that meets the guards accesses it. |
| `LinearUses.LinearStatusExact` | LibKernelExpr/src/ArgumentAnalysis.cpp:552-573 | A store of n bytes every a bytes over consecutive parts gives SUCCESS if and only if elements do not overlap or there is one part, and MERGE otherwise. |
| `ArgumentAnalyses.ComputeRegions` | LibKernelExpr/src/ArgumentAnalysis.cpp:880-1002 | The regions of all sub-kernels, and whether all bounds were computed. |
| `ArgumentAnalyses.PushUse` | LibKernelExpr/src/ArgumentAnalysis.cpp:468-480 | A use contributes its kernel expression to every sub-kernel it is not out of guards of, and nothing elsewhere. |
| `ArgumentAnalyses.BuildExprs` | LibKernelExpr/src/ArgumentAnalysis.cpp:468-492 | All uses, in order, for every sub-kernel. |
| `ArgumentAnalyses.TestPair` | LibKernelExpr/src/ArgumentAnalysis.cpp:1004-1037 | One pair adds exactly its common bytes to the merge region, and is disjoint if and only if there are none. |
| `ArgumentAnalyses.TestRow` | LibKernelExpr/src/ArgumentAnalysis.cpp:1004-1037 | One row of pairs extends the merge region to the bytes shared with any later sub-kernel. |
| `ArgumentAnalyses.FindShared` | LibKernelExpr/src/ArgumentAnalysis.cpp:1004-1037 | All pairs: the merge region is the set of bytes in two or more regions, and the test succeeds if and only if the regions are pairwise disjoint. |
| `ArgumentAnalyses.TrimRegions` | LibKernelExpr/src/ArgumentAnalysis.cpp:1004-1037 | Every region loses exactly the merge region. |
| `ArgumentAnalyses.DisjointTestConserves` | LibKernelExpr/src/ArgumentAnalysis.cpp:1004-1037 | The regions are pairwise disjoint if and only if nothing is shared; trimmed regions are pairwise disjoint, and with the merge region they are a partition of the original union. |
| `ArgumentAnalyses.ArgumentAnalysis.PerformDisjointTest` | LibKernelExpr/src/ArgumentAnalysis.cpp:1004-1037 | The method sets the flag, the trimmed regions and the merge region to these. |
| `ArgumentAnalyses.ArgumentAnalysis.ComputeBounds` | LibKernelExpr/src/ArgumentAnalysis.cpp:381-573 | Before the disjointness test the object holds the expressions and regions of all sub-kernels and whether all bounds were computed. |
| `ArgumentAnalyses.ArgumentAnalysis.PerformAnalysis` | LibKernelExpr/src/ArgumentAnalysis.cpp:381-573 | The whole analysis of an argument: SUCCESS, MERGE or FAIL and all regions, as a function of the uses, the sub-ranges and the indirection values. |
| `ArgumentAnalyses.ArgumentAnalysis.FullWrittenRegion` | LibKernelExpr/src/KernelAnalysis.cpp:317-325 | The full written region is the merge region together with all written regions. |
| `ArgumentAnalyses.CombineStatus` | LibKernelExpr/src/KernelAnalysis.cpp:281-303 | The kernel fails if an argument fails, merges if one merges and none fails; the merge arguments are exactly those with status MERGE, in order. |
| `SplitSoundness.UseInBounds` | LibKernelExpr/src/WorkItemExpr.cpp:42-52 | A use a work-item of sub-kernel i makes was not dropped as out of guards, and its byte offset lies within its bounds. |
| `SplitSoundness.AccessInRegion` | LibKernelExpr/src/ArgumentAnalysis.cpp:880-1002 | Access-region soundness: every byte a work-item of sub-kernel i accesses lies in the region computed for it. |
| `SplitSoundness.ListedNeeds` | libsplit/src/Scheduler/Scheduler.cpp:1091-1094 | Dropping empty regions from the data lists loses no byte and adds none. |
| `SplitSoundness.LoadsNeeded` | libsplit/src/Scheduler/Scheduler.cpp:1042-1054 | Every byte a sub-kernel loads is required on its device. |
| `SplitSoundness.StoresNeeded` | libsplit/src/Scheduler/Scheduler.cpp:1056-1058 | Every byte a sub-kernel stores is in the written list of its device. |
| `SplitSoundness.WrittenRequiredOnce` | libsplit/src/Scheduler/Scheduler.cpp:1080-1094 | A written byte is also required on the same device, and written by one device only. |
| `SplitSoundness.AnalysisMakesLegal` | libsplit/src/Scheduler/Scheduler.cpp:1027-1111 | When the analysis succeeds, the launch meets every hypothesis of the split refinement. |
| `SplitSoundness.AnalysedSplitRefinesSingleDevice` | libsplit/src/Driver.cpp:489-532 | End to end: analysis success and a coherent memory give, after the split launch, the single-device content. |
| `SplitSoundness.PiecesMakeSplit` | libsplit/src/Scheduler/Scheduler.cpp:449-492 | The pieces the partitioner makes form a split in the sense of the theorem, consist of whole groups, carry the kernel's own size, and every work-item runs in exactly one. |
| `ShiftedLaunches.SelectedAgree` | libsplit/src/Scheduler/Scheduler.cpp:1116-1210 | A device that runs some of the work-items, in order, ends with what running all of them on one device leaves, on every byte that only its own work-items store, if these load only such bytes. |
| `ShiftedLaunches.SubKernelImages` | libsplit/src/Driver.cpp:938-955 | With one sub-kernel a device, each device ends with its own work-items run on its own copies. |
| `ShiftedLaunches.ValidWhereClaimed` | libsplit/src/Driver.cpp:957-975 | A byte that is claimed, even by several devices, ends up valid on claiming devices only and on one of them at least. |
| `ShiftedLaunches.ClaimedCoherent` | libsplit/src/Driver.cpp:957-975 | All devices that claim a byte hold the same latest value. |
| `ShiftedLaunches.ShiftRefinesSingleDevice` | libsplit/src/Driver.cpp:489-532 | A legal shifted launch, in which work-items run on several devices and claims overlap, leaves memory coherent with what one device running every work-item once leaves. |
| `ShiftedAnalyses.WrittenExclusively` | libsplit/src/Scheduler/Scheduler.cpp:590-617 | A byte claimed in a turn is stored by no work-item outside the widened piece, if the parts of the turn hold all work-items. |
| `ShiftedAnalyses.StoredInFull` | LibKernelExpr/src/KernelAnalysis.cpp:317-325 | Every byte a work-item stores is in the full written region of the pieces. |
| `ShiftedAnalyses.ShiftAnalysisLegal` | libsplit/src/Scheduler/Scheduler.cpp:590-712 | Turns whose analysis does not fail and whose parts hold all work-items, with claims that cover the full written regions, make the shifted launch legal: what is loaded is sent, what is stored is claimed, and claims are exclusive to the work-items of the device. |
| `ShiftedAnalyses.AnalysedShiftRefinesSingleDevice` | libsplit/src/Scheduler/Scheduler.cpp:590-712 | Such a launch leaves the content one device leaves. |
| `ShiftedAnalyses.ShiftedRunsAll` | libsplit/src/Scheduler/Scheduler.cpp:195-258 | The parts of a shifted partition run all work-items of the kernel if and only if fewer groups are left behind the widened piece than it has. |
| `ShiftedAnalyses.ShiftedSizeExact` | LibKernelExpr/src/IndexExpr/IndexExprOCL.cpp:312-335 | In a shifted partition get_global_size and get_num_groups of the split dimension come out as the kernel's for the widened piece if and only if it is the whole range. |
| `ShiftedAnalyses.ShiftRegions` | libsplit/src/Scheduler/Scheduler.cpp:1165-1180 | What a device claims is also required on it. |
| `ShiftedAnalyses.FillShift` | libsplit/src/Scheduler/Scheduler.cpp:1160-1207 | The data lists handed to the driver are those of the theorem, argument by argument and device by device. |
| `NegotiatedLaunches.ClaimsAre` | libsplit/src/Scheduler/Scheduler.cpp:590-617 | The claims saved for a device are the union of what its widened pieces were found to write. |
| `NegotiatedLaunches.MergedCovered` | libsplit/src/Scheduler/Scheduler.cpp:621-657 | When the check succeeds, the claims cover the full written region of every argument to merge. |
| `NegotiatedLaunches.NegotiatedDevice` | libsplit/src/Scheduler/Scheduler.cpp:421-446 | The turns of a device only widen its piece: what runs in one of them runs in the last one. |
| `NegotiatedLaunches.OutcomeEntries` | libsplit/src/Scheduler/Scheduler.cpp:1172-1207 | Entry by entry, what is launched after the negotiation is what the turns of the devices list. |
| `NegotiatedLaunches.OutcomeGivesSaved` | libsplit/src/Scheduler/Scheduler.cpp:1172-1207 | The regions saved for a device and an argument are those ShiftedAnalyses.FillShift is given. |
| `NegotiatedLaunches.OutcomeIsShift` | libsplit/src/Scheduler/Scheduler.cpp:1116-1210 | The ranges, reads and claims of the outcome make the launch of the theorem. |
| `NegotiatedLaunches.NegotiatedShiftRefinesSingleDevice` | libsplit/src/Scheduler/Scheduler.cpp:590-712 | End to end: whatever the number of rounds, the launch of a shifted answer leaves the content one device running all work-items leaves. |
| `SingleLaunches.SingleLoadsNeeded` | libsplit/src/Scheduler/Scheduler.cpp:1298-1312 | On one device every loaded byte is required, by its region or because a region is unknown. |
| `SingleLaunches.SingleStoresNeeded` | libsplit/src/Scheduler/Scheduler.cpp:1285-1310 | On one device every stored byte is written, by its region or because the region is unknown. |
| `SingleLaunches.SingleLaunchLegal` | libsplit/src/Scheduler/Scheduler.cpp:1212-1323 | Whatever the analysis answers, the launch on one device meets every hypothesis of the split refinement. |
| `SingleLaunches.SingleLaunchRefinesSingleDevice` | libsplit/src/Scheduler/Scheduler.cpp:1212-1323 | The fallback on one device leaves the single-device content, in a memory with any number of devices. |
| `SingleLaunches.SingleRegions` | libsplit/src/Scheduler/Scheduler.cpp:1281-1312 | The required and written regions of one argument, undefined when the written bounds are unknown. |
| `SingleLaunches.FillSingle` | libsplit/src/Scheduler/Scheduler.cpp:1275-1320 | The lists handed to the driver are exactly those of this theorem. |
| `SubKernelInfos.ArgRegions` | libsplit/src/Scheduler/Scheduler.cpp:1037-1089 | The required and written regions of one argument and sub-kernel; what is written is also required. |
| `SubKernelInfos.AddRegion` | libsplit/src/Scheduler/Scheduler.cpp:1091-1094 | A region is listed unless it is empty and defined. |
| `SubKernelInfos.FillArg` | libsplit/src/Scheduler/Scheduler.cpp:1036-1110 | The entries of one argument, in sub-kernel order. |
| `SubKernelInfos.FillDataLists` | libsplit/src/Scheduler/Scheduler.cpp:1027-1111 | The lists handed to the driver are exactly those the end-to-end theorem is about. |
| `Tilings.TilingCovers` | LibKernelExpr/src/NDRange.cpp:143-182 | Consecutive pieces whose counts add up to all work-groups contain every global id of the range in exactly one piece, and no other id. |
| `Tilings.TileIsPart` | LibKernelExpr/src/NDRange.cpp:143-182 | A piece with at least one work-group is a part of the range in the sense of the region analysis, made of whole groups, and carries the kernel's own size. |
| `Tilings.ItemInOnePiece` | LibKernelExpr/src/NDRange.cpp:143-182 | Every work-item of the kernel runs in exactly one piece. |
| `Tilings.KeptSum` | libsplit/src/Scheduler/Scheduler.cpp:1344-1363 | As long as the whole is not reached, the kept requests count all work-groups so far. |
| `Tilings.KeptInitSum` | libsplit/src/Scheduler/Scheduler.cpp:1344-1363 | The kept requests before the last one never reach the whole, so the last piece is not empty. |
| `Tilings.PiecesAddUp` | libsplit/src/Scheduler/Scheduler.cpp:1325-1369 | The piece counts are positive and add up to the number of work-groups. |
| `Tilings.SomethingKept` | libsplit/src/Scheduler/Scheduler.cpp:1325-1369 | Non-negative shares that add up to one, with at least one work-group for each, leave at least one piece. |
| `Tilings.LimitRequest` | libsplit/src/Scheduler/Scheduler.cpp:452-459 | With fewer work-groups than requested pieces, the request becomes one equal share for each work-group. |
| `Tilings.LimitedCounts` | libsplit/src/Scheduler/Scheduler.cpp:452-459 | Each of these is rounded to at least one work-group, and to exactly one for a single kernel. |
| `Tilings.LimitedKept` | libsplit/src/Scheduler/Scheduler.cpp:452-476 | Whatever the request, the compaction of its limited form keeps a piece. |
| `Tilings.MergeKernels` | libsplit/src/Scheduler/Scheduler.cpp:1330-1334 | Each slot gets the number of kernels times the share, and one kernel. |
| `Tilings.RoundShares` | libsplit/src/Scheduler/Scheduler.cpp:1336-1342 | Each share becomes its rounded work-group count over the number of work-groups. |
| `Tilings.Compact` | libsplit/src/Scheduler/Scheduler.cpp:1344-1366 | In place: the kept requests stand at the front with their devices, all but the last with their rounded shares, and the last with what the cap or the completion leaves it. |
| `Tilings.CompactOne` | libsplit/src/Scheduler/Scheduler.cpp:1349-1363 | One turn of the compaction: what moves, how the total grows, whether the cap hits the moved slot, and which slots are untouched. |
| `Tilings.AdaptGranudscr` | libsplit/src/Scheduler/Scheduler.cpp:1325-1369 | The adapted descriptor as a function of the request: which positions are kept, with which devices and shares, the last one included; and the shares add up to one if and only if CapHits holds of the rounded counts. |
| `Tilings.SharesAddUp` | libsplit/src/Scheduler/Scheduler.cpp:1344-1366 | The kept shares add up to one if and only if the position at which the counts reach all work-groups, if there is one, reaches them exactly or has no empty position before it. |
| `Tilings.SharesExceedOne` | libsplit/src/Scheduler/Scheduler.cpp:1358-1359 | Four requests on ten work-groups that add up to one and leave shares of 0.3, 0.3 and 0.5 (concrete input). |
| `Tilings.SplitDim` | LibKernelExpr/src/NDRange.cpp:143-182 | The pieces are consecutive tiles with the truncated shares, the last taking the rest; the method gives up if and only if that rest is negative. |
| `Tilings.Partition` | libsplit/src/Scheduler/Scheduler.cpp:449-492 | Limiting, rounding, compacting and splitting tile the range with non-empty pieces; all but the last have exactly the rounded share, and the "remaining wgs < 0" exit is unreachable. |
| `Tilings.CountIsNear` | libsplit/src/Scheduler/Scheduler.cpp:1336-1342 | A request of kernels times share is rounded to the nearest number of work-groups, half a work-group away from zero. |
| `Tilings.SharedGroupsFit` | LibKernelExpr/src/NDRange.cpp:143-182 | A share is cut to the work-groups that fit into it. |
| `Tilings.FractionGroupsFit` | LibKernelExpr/src/NDRange.cpp:111-141 | So is a fraction. |
| `Tilings.FractionsFit` | LibKernelExpr/src/NDRange.cpp:111-141 | Nominators that add up to at most the denominator never ask for more work-groups than there are. |
| `Tilings.SplitDimFractions` | LibKernelExpr/src/NDRange.cpp:111-141 | `splitDim` with fractions tiles the range, the last piece taking what is left. |
| `Negotiations.GetShiftedPartition` | libsplit/src/Scheduler/Scheduler.cpp:173-253 | The partition built is the one of ShiftedTiles and ShiftedHold: the widened piece at the position returned, the whole range once the shift reaches the group count, and the parts before and behind it with the sizes the code gives them. |
| `Negotiations.ShiftedTiles` | libsplit/src/Scheduler/Scheduler.cpp:195-258 | The parts are consecutive from the start of the range. They end with it if and only if no group is left behind the widened piece, or groups have one work-item and one fewer of them is left than the piece has; in general the last end is off by the local size times the difference of the two group counts, minus one. |
| `Negotiations.ShiftedHold` | libsplit/src/Scheduler/Scheduler.cpp:195-258 | The parts hold every id of the range if and only if fewer groups are left behind the widened piece than it has. |
| `Negotiations.TailMissesEnd` | libsplit/src/Scheduler/Scheduler.cpp:237-249 | A range of four groups of two whose parts are ids 0-3 and 4-6: the last part ends at 7 and the range at 8 (concrete input). |
| `Negotiations.ShiftedWithin` | libsplit/src/Scheduler/Scheduler.cpp:173-253 | The widened piece stays in the range and contains the piece; with a shift of all groups it is the range. |
| `Negotiations.ShiftIs` | libsplit/src/Scheduler/Scheduler.cpp:720-724 | The shift of round t is the initial one plus t steps, or doubled t times. |
| `Negotiations.ShiftGrows` | libsplit/src/Scheduler/Scheduler.cpp:720-724 | It grows by at least one group in every round. |
| `Negotiations.SubKernelSchedInfo.constructor` | libsplit/src/Scheduler/Scheduler.cpp:320-394 | The initial scheduling state satisfies the invariant. |
| `Negotiations.SubKernelSchedInfo.ChoosePartition` | libsplit/src/Scheduler/Scheduler.cpp:396-492 | Which partition is set next: the single-device fallback, the widened piece, or the pieces of the current dimension. |
| `Negotiations.SubKernelSchedInfo.ShiftDevice` | libsplit/src/Scheduler/Scheduler.cpp:421-446 | The partition of this round for this device is set, with the place of the widened piece; the device now has exactly that piece, and the others keep theirs. |
| `Negotiations.SubKernelSchedInfo.SaveClaims` | libsplit/src/Scheduler/Scheduler.cpp:603-604 | The device claims exactly what it claimed before and what the widened piece writes, for every argument; the claims of the other devices are unchanged. |
| `Negotiations.SubKernelSchedInfo.SaveReads` | libsplit/src/Scheduler/Scheduler.cpp:599-602 | The device reads exactly what the widened piece of this round reads, or an undefined region. |
| `Negotiations.SubKernelSchedInfo.SaveAnalysis` | libsplit/src/Scheduler/Scheduler.cpp:590-617 | Both together: ranges, reads and claims of all devices are those after this turn. |
| `Negotiations.SubKernelSchedInfo.CheckShift` | libsplit/src/Scheduler/Scheduler.cpp:621-657 | Shifting is done if and only if the claims cover the full written region of every merge argument. |
| `Negotiations.WholeShiftCovers` | libsplit/src/Scheduler/Scheduler.cpp:621-657 | Once the shift reaches all groups the claims of one device alone cover. |
| `Negotiations.SubKernelSchedInfo.StartShifting` | libsplit/src/Scheduler/Scheduler.cpp:759-806 | The MERGE case starts round 0 with the initial shift, the pieces as ranges, nothing read or claimed, and the full written regions saved. |
| `Negotiations.SubKernelSchedInfo.ContinueShifting` | libsplit/src/Scheduler/Scheduler.cpp:590-749 | A turn saves the analysis and moves to the next device, or ends the round, with a smaller measure. |
| `Negotiations.SubKernelSchedInfo.EndRound` | libsplit/src/Scheduler/Scheduler.cpp:619-743 | After the last device the round is accepted if and only if the claims cover; otherwise the next round starts with a wider shift. |
| `Negotiations.SubKernelSchedInfo.NextRound` | libsplit/src/Scheduler/Scheduler.cpp:717-742 | The next round starts with the first device and a greater shift, keeps ranges and claims and forgets the reads. |
| `Negotiations.SubKernelSchedInfo.SetIndirectionValues` | libsplit/src/Scheduler/Scheduler.cpp:520-826 | Accepts only what may be accepted; otherwise the invariant holds and the lexicographic measure (dimensions left, not shifting, groups left, devices left) is smaller. |
| `Negotiations.SubKernelSchedInfo.Turn` | libsplit/src/Driver.cpp:365-465 | The same for one turn of the driver loop. |
| `Negotiations.Negotiate` | libsplit/src/Driver.cpp:365-465 | The loop ends, with the one answer of the specification: the disjoint split of the first dimension the analysis does not reject; on MERGE the widened pieces, reads and claims after the first round whose claims cover the full written regions, each claim being the union of what the widened pieces of all rounds write; or one device. |
| `Negotiations.AcceptedUnique` | libsplit/src/Driver.cpp:365-465 | There is only one such answer. |
| `Negotiations.AcceptedWidens` | libsplit/src/Scheduler/Scheduler.cpp:590-712 | In a shifted answer every device runs at least its piece, and the claims cover what the pieces write. |
| `GuardNormalisation.NormalizeOCLCondition` | AnalysisPass/src/ConditionBuilder.cpp:259-367 | The rewriting loop computes the specified normal form and fails exactly when it does. |
| `GuardNormalisation.NormalizeKeepsTruth` | AnalysisPass/src/ConditionBuilder.cpp:259-367 | Wherever every factor, divisor and dividend on the path may change sides, the normalisation ends with a bare id and the condition keeps its truth, through moves and operand switches. |
| `GuardNormalisation.NormalizeKeepsLeaves` | AnalysisPass/src/ConditionBuilder.cpp:259-367 | The rewritten trees have no leaf the original ones did not have, and no divisor that is zero. |
| `GuardNormalisation.NegateIsNot` | LibKernelExpr/src/GuardExpr.cpp:10-43 | The negated predicate is the negation, and the flipped one exchanges the sides. |
| `GuardNormalisation.GuardKeepsTruth` | AnalysisPass/src/ConditionBuilder.cpp:369-483 | Where what has to move may move, the pushed (id, predicate, expression) guard holds if and only if the condition has its recorded truth, whichever side the id was on. |
| `GuardNormalisation.SumSideKept` | AnalysisPass/src/ConditionBuilder.cpp:270-312 | Along Add and Sub everything may move, for all values of the leaves. |
| `GuardNormalisation.ConditionGivesGuard` | AnalysisPass/src/ConditionBuilder.cpp:485-558 | When the condition has its recorded truth in a work-item, the guard holds there in the sense of the region analysis. |
| `GuardNormalisation.CountedExact` | AnalysisPass/src/ConditionBuilder.cpp:192-243 | Something is counted if and only if an id is a node of the expression outside Min, Cast and Indir nodes. |
| `GuardNormalisation.UncountedUniform` | AnalysisPass/src/ConditionBuilder.cpp:192-243 | An expression without counted ids, and without nodes that are not looked into, has the same values in all work-items. |
| `GuardNormalisation.CastHidesId` | AnalysisPass/src/ConditionBuilder.cpp:192-243 | Below Cast and Min an id is not counted (concrete input). |
| `GuardNormalisation.BuildGuardExact` | AnalysisPass/src/ConditionBuilder.cpp:485-558 | A condition gives a guard if and only if it has exactly one counted id, in a constant dimension and below Add, Sub, Mul and Div only. |
| `GuardNormalisation.KeptGivesGuard` | AnalysisPass/src/ConditionBuilder.cpp:485-558 | One counted id in a constant dimension and operands that may change sides give a guard. |
| `GuardNormalisation.SignedReadingExact` | AnalysisPass/src/ConditionBuilder.cpp:369-483 | Reading an unsigned comparison as a signed one keeps its truth if and only if both sides have the same sign. |
| `GuardNormalisation.MulChangesTruth` | AnalysisPass/src/ConditionBuilder.cpp:314-334 | Normalising through Mul changes the truth of a condition (concrete input); ScaledConditions.MulExact is the condition. |
| `GuardNormalisation.DivChangesTruth` | AnalysisPass/src/ConditionBuilder.cpp:336-359 | Normalising through Div changes the truth of a condition (concrete input); ScaledConditions.DivExact and DividendExact are the conditions. |
| `ScaledConditions.MulExact` | AnalysisPass/src/ConditionBuilder.cpp:314-334 | For every factor but zero: dividing both sides keeps the truth for all ids if and only if the other side is a multiple of the factor, or the factor is positive and the predicate and the sign of the other side fit the truncation; for a negative factor only equalities of multiples. |
| `ScaledConditions.DivExact` | AnalysisPass/src/ConditionBuilder.cpp:336-345 | For every divisor but zero: multiplying both sides keeps the truth for all ids if and only if the divisor is one, or positive with a predicate and sign that fit the truncation, or minus one in an equality. |
| `ScaledConditions.DividendExact` | AnalysisPass/src/ConditionBuilder.cpp:346-357 | For an id in the divisor: moving the dividend keeps the truth for all ids but zero if and only if the predicate is an equality and no id, or exactly one, gives the quotient. |
| `LockFreeQueues.LockFreeQueue.constructor` | libsplit/src/Queue/LockFreeQueue.cpp:6-11 | A new ring is empty. |
| `LockFreeQueues.LockFreeQueue.Enqueue` | libsplit/src/Queue/LockFreeQueue.cpp:17-24 | Fails exactly when size - 1 elements wait; otherwise appends the element. |
| `LockFreeQueues.LockFreeQueue.Dequeue` | libsplit/src/Queue/LockFreeQueue.cpp:26-32 | Fails exactly when the ring is empty; otherwise removes and returns the oldest element. |
| `LockFreeQueues.LockFreeQueue.Size` | libsplit/src/Queue/LockFreeQueue.cpp:34-37 | The number of waiting elements, whichever index is larger. |
| `LockFreeQueues.RingGrows` | libsplit/src/Queue/LockFreeQueue.cpp:17-24 | Storing at the write index and advancing it appends, across the wrap-around. |
| `LockFreeQueues.RingShrinks` | libsplit/src/Queue/LockFreeQueue.cpp:26-32 | Advancing the read index removes the oldest element, across the wrap-around. |
| `QueueRuns.CallerKeepsInv` | libsplit/src/Queue/DeviceLFQueue.cpp:27-41 | Each single read or write of the enqueuing thread and of the shutdown keeps the shared invariant. |
| `QueueRuns.WorkerKeepsInv` | libsplit/src/Queue/DeviceLFQueue.cpp:43-79 | Each single read or write of the worker thread keeps it. |
| `QueueRuns.RunKeepsInv` | libsplit/src/Queue/DeviceLFQueue.cpp:27-79 | So does every interleaving. |
| `QueueRuns.CallerRefinesFifo` | libsplit/src/Queue/LockFreeQueue.cpp:17-24 | A caller step appends the next command when it publishes the write index and is invisible otherwise; it finds the ring full exactly when size - 1 commands wait. |
| `QueueRuns.WorkerRefinesFifo` | libsplit/src/Queue/LockFreeQueue.cpp:26-32 | A worker step takes the oldest command when it publishes the read index, and executes exactly that one; it leaves the queue only when nothing waits. |
| `QueueRuns.SizeIsZero` | libsplit/src/Queue/LockFreeQueue.cpp:34-37 | The two reads of the write index in Size, with unsigned wrap-around, give zero only if the second one equals the read index. |
| `QueueRuns.WorkerExecutesAll` | libsplit/src/Queue/DeviceLFQueue.cpp:27-79 | Under every interleaving the executed commands are a prefix of the enqueued ones, and when the worker exits they are all the commands, in order, once each. |
| `QueueProgress.PendingExecuted` | libsplit/src/Queue/DeviceLFQueue.cpp:43-79 | Whatever the caller does, a waiting command is executed within seven turns of the worker. |
| `QueueProgress.EmptyPublishes` | libsplit/src/Queue/DeviceLFQueue.cpp:27-41 | Whatever the worker does, with nothing waiting the caller publishes the next command or stops within four turns. |
| `QueueProgress.WorkerExits` | libsplit/src/Queue/DeviceLFQueue.cpp:43-79 | With nothing waiting and the caller stopped, the worker exits within five turns. |
| `QueueProgress.FairShrinks` | libsplit/src/Queue/DeviceLFQueue.cpp:27-79 | In every stretch of a schedule with seven turns of the worker and four of the caller something gets done. |
| `QueueProgress.QueueFinishes` | libsplit/src/Queue/DeviceLFQueue.cpp:27-79 | Under every schedule made of enough such stretches all commands are executed in order and both threads end, if and only if the ring has more than one element or there is no command. |
| `Serialisation.ReadWritten` | LibKernelExpr/src/IndexExpr/IndexExpr.cpp:108-117 | Reading back a number consumes exactly the bytes written for it. |
| `Serialisation.ValueRoundTrip` | LibKernelExpr/src/IndexExpr/IndexExprValue.cpp:51-75 | Constants of all types are rebuilt, bit patterns included. |
| `Serialisation.ExprRoundTrip` | LibKernelExpr/src/IndexExpr/IndexExpr.cpp:128-237 | For every tree and any trailing bytes, `open` consumes exactly what `write` produced and rebuilds the tree up to names, injected values and unknown labels. |
| `Serialisation.ListRoundTrip` | LibKernelExpr/src/IndexExpr/IndexExpr.cpp:199-215 | The same for the operands of Min and Max. |
| `Serialisation.CountedRoundTrip` | LibKernelExpr/src/ArgumentAnalysis.cpp:665-759 | A counted list of records round-trips when its records do. |
| `Serialisation.GuardRoundTrip` | LibKernelExpr/src/GuardExpr.cpp:150-178 | Guards round-trip; the predicate is not negated a second time. |
| `Serialisation.UseRoundTrip` | LibKernelExpr/src/WorkItemExpr.cpp:72-102 | Work-item expressions with their guards round-trip. |
| `Serialisation.ArgumentRoundTrip` | LibKernelExpr/src/ArgumentAnalysis.cpp:665-759 | Argument analyses with their six lists of uses round-trip. |
| `Serialisation.IndirectionRoundTrip` | LibKernelExpr/src/KernelAnalysis.cpp:465-479 | Indirection expressions round-trip. |
| `Serialisation.TablesRoundTrip` | LibKernelExpr/src/KernelAnalysis.cpp:437-454 | The three argument tables, written with one count, round-trip. |
| `Serialisation.RecordsRoundTrip` | LibKernelExpr/src/KernelAnalysis.cpp:456-479 | The argument analyses and indirections of a kernel round-trip. |
| `Serialisation.KernelRoundTrip` | LibKernelExpr/src/KernelAnalysis.cpp:430-570 | Opening a written kernel analysis rebuilds it and leaves exactly the bytes that followed. |
| `Streams.StringStream.Put` | LibKernelExpr/src/IndexExpr/IndexExpr.cpp:108-117 | Writing appends to the stream. |
| `Streams.StringStream.Get` | LibKernelExpr/src/IndexExpr/IndexExpr.cpp:128-142 | Reading a number consumes its bytes, or nothing when the stream is too short. |
| `Streams.WriteIndexExpr` | LibKernelExpr/src/IndexExpr/IndexExprBinop.cpp:217-229 | The recursive `write` appends exactly the specified bytes. |
| `Streams.WriteOperands` | LibKernelExpr/src/IndexExpr/IndexExprMin.cpp:129-141 | The operand loop of Min and Max appends the count and all operands. |
| `Streams.OpenIndexExpr` | LibKernelExpr/src/IndexExpr/IndexExpr.cpp:128-237 | The recursive `open` consumes and builds exactly what the specification does, and fails exactly when it does. |
| `Streams.OpenOperands` | LibKernelExpr/src/IndexExpr/IndexExpr.cpp:199-215 | The operand loop consumes and builds exactly the specified list. |
| `Reductions.PackedAt` | libsplit/src/Driver.cpp:774-810 | Packing and unpacking by running offset are inverse: element j of interval i stands where the offset says. |
| `Reductions.Pack` | libsplit/src/Driver.cpp:774-810 | The D2H loop fills the temporary array with the region, interval after interval. |
| `Reductions.SumElement` | libsplit/src/Driver.cpp:1023-1040 | One position of the first array becomes the sum over all devices, modulo the width. |
| `Reductions.SumAll` | libsplit/src/Driver.cpp:1023-1040 | So do all positions. |
| `Reductions.AddInterval` | libsplit/src/Driver.cpp:1041-1056 | One interval of the local buffer is reduced, and nothing else changes. |
| `Reductions.AddContributions` | libsplit/src/Driver.cpp:1041-1056 | Exactly the region of the local buffer is reduced. |
| `Reductions.DoReduction` | libsplit/src/Driver.cpp:1023-1056 | Every element of the region becomes local plus the sum of (device - local), modulo the width; all others are unchanged. |
| `Reductions.ReductionIsSum` | libsplit/src/Driver.cpp:1023-1056 | If every device added its contribution to the common start value, the reduced value is the single-device sum modulo the width. |
| `Reductions.ReducedTypes` | libsplit/src/Driver.cpp:1077-1113 | For an integer type, the dispatched loop leaves the single-device sum at the width of the type for all contributions if and only if the type is neither CHAR nor UCHAR. |
| `Reductions.ModulusIs` | libsplit/src/Driver.cpp:1077-1113 | Integers wrap around at the bytes of their type; exactly FLOAT and DOUBLE are reduced as reals, at their own width. |
| `Reductions.RealReductionIsSum` | libsplit/src/Driver.cpp:1034-1056 | FLOAT and DOUBLE elements, over the reals: local + (sum - n * local), as the second loop computes it, is the start value with all contributions. |
| `Reductions.ReduceRealElement` | libsplit/src/Driver.cpp:1024-1057 | The two loops on one such element leave the start value with the contributions of all devices, and every other element of the local buffer as it was. |
| `ReductionSteps.ReductionCoherent` | libsplit/src/Driver.cpp:1115-1118 | A buffer that was coherent outside the reduced region is coherent again after the reduction and its validity update, with the reduced values. |
| `ReductionSteps.FinishReduction` | libsplit/src/Driver.cpp:1115-1118 | The loop removes the region from every device and adds it to the host. |
| `CommConstraints.RowOf` | libsplit/src/Scheduler/MultiKernelSolver.cpp:137-228 | A coefficient block weighs exactly the shares of its devices. |
| `CommConstraints.DotOf` | libsplit/src/Scheduler/MultiKernelSolver.cpp:137-228 | The dot product with both share vectors is the sum of the two weighted prefixes. |
| `CommConstraints.AddBefore` | libsplit/src/Scheduler/MultiKernelSolver.cpp:137-228 | The loop adds to the coefficients of the devices before a bound, in both kernels, and changes no other. |
| `CommConstraints.PrefixBounds` | libsplit/src/Scheduler/SchedulerMKGR2.cpp:244-250 | Prefix sums of shares grow from 0 to 1. |
| `CommConstraints.GetD2HConstraint` | libsplit/src/Scheduler/MultiKernelSolver.cpp:137-228 | When it returns true, the dot product of the coefficients with the shares is within EPSILON of the length of the part the device loses; when false that length is below 2 EPSILON. |
| `CommConstraints.GetH2DConstraint` | libsplit/src/Scheduler/MultiKernelSolver.cpp:230-322 | The same for the part the device gains. |
| `GlpMatrices.RowInjective` | libsplit/src/Scheduler/MultiKernelSolver.cpp:324-466 | Different rows have different indices, for all kernel and device counts. |
| `GlpMatrices.RowOnto` | libsplit/src/Scheduler/MultiKernelSolver.cpp:324-466 | Every number from 1 to the number of rows is the index of a row. |
| `GlpMatrices.RowRange` | libsplit/src/Scheduler/MultiKernelSolver.cpp:324-466 | Row indices lie between 1 and the number of rows. |
| `GlpMatrices.ColInjective` | libsplit/src/Scheduler/MultiKernelSolver.cpp:469-546 | Different columns have different indices. |
| `GlpMatrices.ColRange` | libsplit/src/Scheduler/MultiKernelSolver.cpp:469-546 | Column indices lie between 1 and the number of columns. |
| `GlpMatrices.RowsCounted` | libsplit/src/Scheduler/MultiKernelSolver.cpp:573-935 | In the order createGlpProb creates the rows, each index is one more than that of the row before, from 1 to the number of rows. |
| `GlpMatrices.ColsCounted` | libsplit/src/Scheduler/MultiKernelSolver.cpp:573-935 | The same for the columns. |
| `GlpMatrices.RowMeaning` | libsplit/src/Scheduler/MultiKernelSolver.cpp:941-1236 | For any values of the variables, the entries of a row sum to what the row says: perf * x - T; gr * x - granularity; the sum of the granularities; comm - T; the prefix of one kernel minus that of the other minus the left or right volume; cost * (left + right) - comm. |
| `GlpMatrices.FilledTogether` | libsplit/src/Scheduler/MultiKernelSolver.cpp:999-1225 | For two kernels and a device the four rows about one direction of transfer are filled together, if and only if the kernels differ and the transfer has a cost. |
| `GlpMatrices.RowEntriesDistinct` | libsplit/src/Scheduler/MultiKernelSolver.cpp:941-1236 | The entries of one row lie in that row, in different columns, and are at most twice the number of devices plus one. |
| `GlpMatrices.EntriesWellFormed` | libsplit/src/Scheduler/MultiKernelSolver.cpp:941-1236 | Filling different rows one after the other never fills a position twice. |
| `GlpMatrices.EntriesCount` | libsplit/src/Scheduler/MultiKernelSolver.cpp:941-1236 | The number of entries of a list of rows is bounded. |
| `GlpMatrices.Capacity` | libsplit/src/Scheduler/MultiKernelSolver.cpp:548-570 | The allocated arrays are large enough for that many entries in every row. |
| `GlpMatrices.KeyGrows` | libsplit/src/Scheduler/MultiKernelSolver.cpp:941-1236 | The order in which rows are filled is strictly increasing in an index of the rows. |
| `GlpMatrices.RowCount` | libsplit/src/Scheduler/MultiKernelSolver.cpp:941-1236 | So no more rows are filled than there are. |
| `GlpMatrices.MultiKernelSolver.constructor` | libsplit/src/Scheduler/MultiKernelSolver.cpp:548-570 | The allocated arrays start without entries. |
| `GlpMatrices.MultiKernelSolver.SetCoefs` | libsplit/src/Scheduler/MultiKernelSolver.cpp:1320-1338 | New coefficients for the next call leave the arrays allocated. |
| `GlpMatrices.MultiKernelSolver.PutRow` | libsplit/src/Scheduler/MultiKernelSolver.cpp:941-1236 | Storing the entries of a row stays within the arrays. |
| `GlpMatrices.MultiKernelSolver.FillKernel` | libsplit/src/Scheduler/MultiKernelSolver.cpp:949-992 | The rows of one kernel. |
| `GlpMatrices.MultiKernelSolver.FillDevices` | libsplit/src/Scheduler/MultiKernelSolver.cpp:999-1225 | The rows of one family between two kernels, those without coefficient left out. |
| `GlpMatrices.MultiKernelSolver.FillPairs` | libsplit/src/Scheduler/MultiKernelSolver.cpp:999-1225 | The rows of one family between one kernel and all others are stored. |
| `GlpMatrices.MultiKernelSolver.FillFamily` | libsplit/src/Scheduler/MultiKernelSolver.cpp:999-1225 | All rows of one family. |
| `GlpMatrices.MultiKernelSolver.UpdateGlpMatrix` | libsplit/src/Scheduler/MultiKernelSolver.cpp:941-1236 | At every call, whatever is in the arrays: they end up with exactly the entries of all rows that have a coefficient; no (row, column) pair repeats, and all indices are in range. |
| `GlpMatrices.StoredMeaning` | libsplit/src/Scheduler/MultiKernelSolver.cpp:941-1236 | Over all entries of the filled rows, those with a row's number sum to what that row says; a row that is not filled has none. |
| `GlpMatrices.MultiKernelSolver.MatrixMeaning` | libsplit/src/Scheduler/MultiKernelSolver.cpp:941-1236 | So after every update each row of the matrix says what it should, for any values of the variables. |
| `GlpMatrices.MultiKernelSolver.PositionsDistinct` | libsplit/src/Scheduler/MultiKernelSolver.cpp:941-1236 | Distinct entries are stored as distinct index pairs. |

## Left out

- Atomic minimum and maximum, Or and merge transfer lists and their reductions: the atomic sum stands for their kind, and host merge is disabled by assertions in the driver.
- `map`, `unmap` and the no-memcpy mode: `unmap` invalidates the devices without making the host valid, so the invariant does not hold for it.
- The LLVM and Clang parts that build expressions and collect conditions: they depend on libraries outside the repository.
- OpenCL dispatch, GLPK and GSL calls, timers, sampling, regression, options and logging.
- Floating-point rounding and the truncation of guard values to `int` in `applyGuard`.
- Overflow of `long` and wrap-around of offsets, except in the queue's `Size` and in reductions.
- Lb and Hb nodes: they have no value in a work-item; their bounds are the ends of what work-items give their operand (WorkItemExprsSoundness.SubKernelEnds).
- The mutation of trees by `injectArgsValues` and `injectIndirValues`: trees are taken after injection.
- `getWorkgroupExpr`: not used by the split.
- Lists passed by constant reference to `ListInterval` are passed as sequences; memory handles in transfer lists are indices; the regions of an argument analysis are sequences of intervals.
- `write` and `open` of guards, work-item expressions, argument and kernel analyses are functions on byte sequences; index expressions also have stream methods.
- A stream that is too short, or holds an unknown code, gives no result; the original reads undefined values, and lets a constant of unknown type fall through to a cast.
- The granularity descriptor is an array of triples rather than a flat array.
- Reductions.DoReduction: works on elements, not on bytes, so element alignment is part of the model, and assumes that all devices have the same region and started from a valid host copy; the loops over regions are those for integer elements, FLOAT and DOUBLE have those on one element only.
- Reductions.Pack: works on elements, not on bytes.
- Reductions.AddInterval: works on elements, not on byte offsets.
- ArgumentAnalyses.ArgumentAnalysis.PerformAnalysis: plain loads and stores only; the or, atomic sum, minimum and maximum uses, which go through the same region computation, are not part of this model.
- QueueRuns.WorkerExecutesAll: memory is sequentially consistent although `running` and the indices are not all volatile.
- Negotiations.Negotiate: assumes that no indirection value is missing, that every requested device gets a piece and that the region of the whole range covers the regions of the pieces; the `box_sort` special case and the kernel-specific dimension order are not modelled.
- ShiftedAnalyses.AnalysedShiftRefinesSingleDevice: assumes that no work-item loads a byte that a work-item outside its device's piece stores, that no turn's analysis fails (the code does not look), that the parts of each turn hold all work-items, that the claims cover the full written region of every argument (the code tests the arguments to merge), one sub-kernel a device, and the assumptions on uses and accesses of AnalysedSplitRefinesSingleDevice; the `box_sort` special case and the changed granularities are not modelled.
- NegotiatedLaunches.NegotiatedShiftRefinesSingleDevice: assumes of the partitions the turns analyse what AnalysedShiftRefinesSingleDevice assumes, and that the claims cover what the pieces write of the arguments that need no merging; those of the others are covered by the check.
- ShiftedAnalyses.FillShift: the saved regions are values; the original adds the claims to them in place.
- SplitSoundness.AnalysedSplitRefinesSingleDevice: assumes that no work-item loads a byte another device stores in the same launch, that loaded bytes are defined, that accesses are those of the uses and inside the buffers, and that no buffer was created with USE_HOST_PTR alone. Of the uses it assumes that the two values read back for an indirection bound every value a work-item reads there, a zero offset where group ids occur, local ids whose guarded ends are in order (LocalsInOrder), parts that carry the kernel's own size where get_global_size or get_num_groups occurs (PiecesMakeSplit proves it of the pieces), and operators whose corner rules are bounds (CornersApply).
- BoundsSoundness.BoundsSound: for Or, Xor and And only on point intervals, for Mod on `long` operands, for shifts on non-negative shift counts.
- BoundsSoundness.OrCornersFail: no exact condition for two proper intervals, only those on points and for masks; the same holds for And and Xor.
- BoundsSoundness.AndCornersFail: see OrCornersFail.
- BoundsSoundness.XorCornersFail: see OrCornersFail.
- BoundsTightness.BoundsTight: not for remainders, whose ends are values exactly as ModTightExact says, and not for whole trees with indirections, of which IndirTight speaks one at a time.
- GuardExactness.GlobalIdsExact: without guards on local ids, which cut the ends of a span of global ids only; LocalIdsReached has the same restriction.
- LinearUses.LinearStatusExact: for a single store of positive stride and offset from zero on.
- MaskBounds.AndMaskExact: BoundsSoundness.BoundsSound does not use it, and asks for points.
- KernelExprsSoundness.LocalIdsSound: only where the ends are in order modulo the group size, as `LocalEndsExact` says.
- Names of rows and columns of the linear program, its bounds and its objective.
