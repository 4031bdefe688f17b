# A verified model of the v-os kernel core

v-os runs the FreeBSD 13 kernel in a user process. Most of its compatibility
layer is glue, but some files carry whole algorithms that the rest of the
kernel leans on. This project models those algorithms in Dafny, in the form
they have in C (classes whose fields are updated in place, arrays changed by
loops), and proves what they promise on all inputs, all runs or all
interleavings.

* **The callout wheel** (`CalloutList`, `CalloutSpec`, `CalloutWheel`,
  `CalloutHistory`). A hashed
  wheel of lists, a 32-bit clock that is advanced lazily and a scan cursor. It
  is proved to refine a plain map from callout to due tick, with handlers that
  arm, re-arm and stop any callout while the scan is under way. Ticks are
  32-bit in the code; a ghost clock without bound says what they stand for.
* **Signal frames** (`SignalFrame`, `SignalDelivery`, `SignalGeometry`,
  `SignalNesting`, `SignalLayout`, `SignalOrderly`, `SignalOverrun`,
  `SignalThread`). Where `sendsig` puts a frame, its layout down to bytes of user
  memory, what the handler starts with, and the return
  through `sys_sigreturn`. Over every run of deliveries, user code and returns, a
  signal whose frame no step writes to unwinds to exactly the interrupted
  context. Frames land apart from each other exactly under stated conditions on
  the stack pointer and the alternate stack; where those fail, concrete runs lose
  a context.
* **Interrupts** (`IntrCounters`, `IntrBalance`). Counter slots are never shared
  and never run out; the balancer spreads sources evenly.
* **Startup** (`SysinitSpec`, `Sysinit`). The sort, run, merge and restart loop
  runs every task once and in order, and ends.
* **Physical memory** (`Physmap`, `PhysAvail`). The map of regions stays sorted
  and covers what it should; pages are conserved on the way to `phys_avail`.
* **Atomic bits, I/O permissions, numbers as text, the static environment,
  console buffering and the IP checksum** (`AtomicBits`, `Ioperm`, `NumberText`,
  `EnvArray`, `KernEnv`, `PutBuf`, `InCksum`).

`Common`, `Arith` and `Bits` hold the option type and the arithmetic of powers of two, remainders and bits
that several modules share.

Some promises hold only under a condition, which is proved exact:

* `callout_tick` catches up exactly when it is at most 2^31 ticks behind. From
  there up to 2^32 its signed comparison sees a clock that is ahead, and the
  call does nothing (`CalloutCpu.CalloutTick`, `LateTickExact`,
  `LateTickExample`).
* A task registered with `sysinit_add` before `mi_startup` makes the first
  restart drop the linker's own set, because that set is not yet the current
  table when the new one is built. Nothing is lost if every runnable static task
  outside the added sets comes strictly before all other runnable static ones
  (`SafeBeforeStartup`). When no task adds a static one again that is exact, over
  all startups if keys may tie (`PreparedAlways`) and for each one if they do not
  (`PreparedExact`); `StaticTaskLost` is an input that fails.
* A signal that asks for the alternate stack spares the frames on it exactly
  while the interrupted stack pointer is on that stack; off it, `sendsig` starts
  again at the top (`AltStackExact`, `RestartLosesContext`, `RestartRun`).
* A frame that runs below the bottom of the alternate stack spares whatever
  frames `sendsig` can have put on the main stack exactly if it ends no lower than
  the highest top these can have, 129 bytes below the bottom, or no frame fits
  between the place where the main stack was left and that top (`BelowAltExact`,
  `SwitchExact`, `NextFrameApart`). In `OverrunRun` it does not spare them.
* A memory region whose end wraps around 2^64 does no damage to the map exactly
  if its wrapped end still seems to overlap, so that it is ignored, or if it is
  refused (`WrappedExact`, `WrappedExample`).
* The CPU search of the balancer ends exactly if the domain has an eligible CPU
  (`SearchEndsExactly`).
* A printed number comes back through `getenv_array` into 64-bit elements
  exactly when it fits a signed 64-bit integer; a larger one silently becomes
  the largest such integer (`RoundTripExact64`).
* Console output shows the characters put exactly if none is NUL
  (`ConservedExactly`).

I/O, clocks and code outside the modelled files are parameters: handlers are
arbitrary functions to sequences of reset and stop calls, sysinit tasks are
arbitrary functions to sequences of sets to add, the memory test and
`pic_assign_cpu` are arbitrary predicates, privilege checks and
`intr_event_create` are their return codes, and the mapped part of user memory
decides which copies fail.

## Model

| member | source | states |
|---|---|---|
| CalloutWheel.WheelSizeIsNextPowerOfTwo | src/freebsd/compat/user_kern_timeout.c:241-246 | the wheel size computed from `fls` is above `ncallout` and at most twice it |
| CalloutWheel.BucketOfTick | src/freebsd/compat/user_kern_timeout.c:299-303 | the bucket read off the 32-bit image of a tick is the bucket of the unbounded tick, so buckets survive wrap-around |
| CalloutWheel.BehindTest | src/freebsd/compat/user_kern_timeout.c:319 | the signed 32-bit difference is negative exactly for a backlog of 1 to 2^31 ticks |
| CalloutWheel.CursorSurvives | src/freebsd/compat/user_kern_timeout.c:754-765 | taking any element off the list under scan keeps the cursor on the list and loses nothing in front of it but that element |
| CalloutWheel.CalloutCpu.constructor | src/freebsd/compat/user_kern_timeout.c:226-297 | the wheel starts empty, valid, with no callout pending and more buckets than `ncallout` |
| CalloutWheel.CalloutCpu.Hardclock | src/freebsd/compat/user_kern_timeout.c:1205-1209 | advancing `ticks` modulo 2^32 advances the ghost clock by one and keeps the wheel valid |
| CalloutWheel.CalloutCpu.CcAdd | src/freebsd/compat/user_kern_timeout.c:352-372 | the callout becomes pending at now plus its delay, goes to the head of the right list, and the cursor moves to it when that list is under scan |
| CalloutWheel.CalloutCpu.CalloutReset | src/freebsd/compat/user_kern_timeout.c:694-776 | the callout becomes due that many ticks after the present one, or one tick after it if the number is not positive; returns 1 exactly if it was pending; the cursor keeps everything else in front of it |
| CalloutWheel.CalloutCpu.CalloutStop | src/freebsd/compat/user_kern_timeout.c:981-1010 | the callout leaves the abstract map; returns 1 exactly if it was there and -1 otherwise |
| CalloutWheel.CalloutCpu.SoftclockCallCc | src/freebsd/compat/user_kern_timeout.c:421-541 | any finite sequence of reset and stop calls by the handler acts on the abstract map in order, and what the handler did not touch stays in front of the cursor |
| CalloutWheel.CalloutCpu.Fire | src/freebsd/compat/user_kern_timeout.c:582-601 | after a handler call, whatever it did, every callout still due at the scanned tick is in front of the cursor, the cursor is on that list, and strictly fewer callouts are due at that tick |
| CalloutWheel.CalloutCpu.ScanBucket | src/freebsd/compat/user_kern_timeout.c:578-601 | a scan of one bucket ends, fires only callouts of that tick, each an earliest overdue one at its turn, and leaves none due at that tick |
| CalloutWheel.CalloutCpu.Softclock | src/freebsd/compat/user_kern_timeout.c:559-611 | ends with `cc_softticks` equal to `ticks` and nothing overdue, having made a legal sequence of handler calls |
| CalloutWheel.CalloutCpu.CalloutTick | src/freebsd/compat/user_kern_timeout.c:305-333 | with a backlog of at most 2^31 the call is a complete run of the abstract scheduler; with one above 2^31 and below 2^32 it does nothing |
| CalloutWheel.CalloutCpu.PendingIsOnItsList | src/freebsd/compat/user_kern_timeout.c:352-372 | in every valid state a callout is pending exactly if it is on a bucket list, and then on the list of its own due tick only, once |
| CalloutWheel.CalloutCpu.Drive | src/freebsd/compat/user_kern_timeout.c:305-333 | every history of reset, stop, clock and tick calls with the backlog below 2^32 is step by step a history of the plain map, return values included |
| CalloutSpec.FiredWasDue | src/freebsd/compat/user_kern_timeout.c:573-602 | no early run and nothing armed during the call: a handler called was due before the call and no earlier handler fired, stopped or re-armed it |
| CalloutSpec.FiredInOrder | src/freebsd/compat/user_kern_timeout.c:573-602 | handlers run in nondecreasing order of due tick |
| CalloutSpec.FiresAtMostOnce | src/freebsd/compat/user_kern_timeout.c:573-602 | no callout runs twice in one call |
| CalloutSpec.FiresExactlyTheOverdue | src/freebsd/compat/user_kern_timeout.c:305-333 | a callout fires in a tick call if and only if it was overdue and every handler that stopped or re-armed it came with or after its own run |
| CalloutSpec.LastCallDecides | src/freebsd/compat/user_kern_timeout.c:694-776 | whatever calls a handler makes, its last one on a callout decides: stopped means not pending, reset means due that number of ticks after the present one, and one tick after it for a number that is not positive |
| CalloutSpec.LastRunDecides | src/freebsd/compat/user_kern_timeout.c:573-602 | the same over all the handlers of a tick call, for the last call on a callout that does not fire afterwards |
| CalloutHistory.FiresInFirstCatchUp | src/freebsd/compat/user_kern_timeout.c:305-333 | over a whole history of calls, a callout armed once and not touched again fires in the first catching-up tick call after its due tick, and in no other |
| CalloutHistory.LateTickExact | src/freebsd/compat/user_kern_timeout.c:319 | more than 2^31 ticks behind, a tick call does what it should if and only if nothing is overdue |
| CalloutHistory.LateTickExample | src/freebsd/compat/user_kern_timeout.c:319 | a state 2^31 + 1 ticks behind in which an overdue callout does not run |
| SignalFrame.UcRoundTrip | src/freebsd/machine/x86/ucontext.h:97-163 | every context reads back from its layout in words |
| SignalFrame.FrameReadsBack | src/freebsd/compat/user_exec_machdep.c:244-250 | the context inside a frame stored as bytes of user memory is read back by the copy at its address |
| SignalDelivery.SigreturnStaysUser | src/freebsd/compat/user_exec_machdep.c:227-329 | whatever address a program passes and whatever it finds there, the return leaves user mode, no privileged flag bit changed and SIGKILL and SIGSTOP unmasked, and an error changes nothing |
| SignalGeometry.FrameBelowTop | src/freebsd/compat/user_exec_machdep.c:148-165 | when the copy succeeds, 64-bit address arithmetic has not wrapped: the frame is 16-byte aligned, the extended area 64-byte aligned above it, both below the stack top and within 80 bytes of padding |
| SignalGeometry.NewFrameAligned | src/freebsd/compat/user_exec_machdep.c:148-165 | a delivered frame is aligned and starts at the top of the alternate stack, or exactly 128 bytes below the interrupted stack pointer |
| SignalGeometry.NewFrameMade | src/freebsd/compat/user_exec_machdep.c:148-165 | every delivered frame is of the form the exact conditions quantify over, with the interrupted stack pointer saved in it |
| SignalGeometry.RedZoneExact | src/freebsd/compat/user_exec_machdep.c:148-165 | a frame is clear of the interrupted code's red zone if and only if it stays on that code's stack, or the top of the alternate stack is outside the red zone and the frame does not reach the stack pointer |
| SignalGeometry.NewFrameNests | src/freebsd/compat/user_exec_machdep.c:133-166 | delivery on top of nested frames by disciplined code gives nested frames again if and only if the new frame fits its stack |
| SignalGeometry.NewFrameApart | src/freebsd/compat/user_exec_machdep.c:133-166 | a frame on the main stack hits no live frame, and one on the alternate stack hits none on that stack, and none at all unless it runs below the bottom |
| SignalGeometry.AltStackExact | src/freebsd/compat/user_exec_machdep.c:148-157 | with frames live on the alternate stack, the next signal asking for it lands apart from all of those if and only if the interrupted stack pointer is on that stack |
| SignalGeometry.BelowAltExact | src/freebsd/compat/user_exec_machdep.c:148-165 | with code on the alternate stack, the next frame spares every stack of main-stack frames `sendsig` can have made if and only if it ends no lower than their highest possible top, the main stack was never left, or no frame fits between the place where it was left and that top |
| SignalGeometry.SwitchExact | src/freebsd/compat/user_exec_machdep.c:148-165 | a signal that switches to the alternate stack spares every stack of live frames `sendsig` can have made if and only if its frame ends no lower than their highest possible top, or no frame fits between the stack pointer and that top |
| SignalNesting.NewFrameIntact | src/freebsd/compat/user_exec_machdep.c:193-203 | after delivery memory holds exactly the frame and the extended FPU state |
| SignalNesting.ReturnRestores | src/freebsd/compat/user_exec_machdep.c:244-328 | returning from an intact frame is accepted and restores the saved registers, selectors, bases, mask and FPU state without touching memory |
| SignalNesting.FlagsDecide | src/freebsd/compat/user_exec_machdep.c:255-265 | from an intact frame with acceptable other fields the return succeeds if and only if saved and present flags agree on every bit but 0, 2, 4, 6, 7, 8, 10, 11, 14, 16, 18 and 21; otherwise, so for a difference in the interrupt or I/O privilege bits, it gives `EINVAL` and changes nothing |
| SignalNesting.RunStaysUser | src/freebsd/compat/user_exec_machdep.c:107-329 | no run of deliveries, returns and arbitrary user code leaves user mode or changes a privileged flag bit |
| SignalNesting.FrameKept | src/freebsd/compat/user_exec_machdep.c:107-329 | in any run, a frame that every later step spares stays as it was written, whatever becomes of the other frames |
| SignalNesting.SignalsUnwind | src/freebsd/compat/user_exec_machdep.c:227-329 | in any run, a signal whose frame every step up to its return spares is returned from with success, and the interrupted general registers, rip, rsp, rflags, selectors, bases and mask are back, and the FPU state if it was in use |
| SignalLayout.FramePlace | src/freebsd/compat/user_exec_machdep.c:148-165 | the frame is the highest 16-byte aligned one below the extended area, and that the highest 64-byte aligned one below the top of the alternate stack or 128 bytes below the stack pointer |
| SignalLayout.HandlerStarts | src/freebsd/compat/user_exec_machdep.c:167-213 | the handler starts at its frame in the trampoline with rdi the signal, rsi the code or the address of siginfo, rdx the context, rcx the fault address, all other general registers kept, the configured selectors, the trap and direction bits of the flags clear and every other bit kept |
| SignalLayout.HandlerFinds | src/freebsd/compat/user_exec_machdep.c:167-197 | in memory the first word of the frame is the handler, and where rsi points, for a signal that asked for it, are the ten words of siginfo with the signal number in the low half of the first |
| SignalLayout.SavedRegisters | src/freebsd/compat/user_exec_machdep.c:132-149 | the mask and every register of the saved context are in memory at their offsets in the frame |
| SignalLayout.SavedRest | src/freebsd/compat/user_exec_machdep.c:132-149 | so are the FPU state, both segment bases, the extended area, its place and length, and the signal stack |
| SignalLayout.SigreturnExact | src/freebsd/compat/user_exec_machdep.c:241-314 | on a context at any address the return succeeds, or fails with `EFAULT` or `EINVAL`, exactly as seven words of it and the readability of the extended state say; a failure changes nothing |
| SignalLayout.SigreturnInstalls | src/freebsd/compat/user_exec_machdep.c:315-328 | a return that succeeds loads every register, both bases and the mask from their offsets in the context, signals 9 and 17 staying unmasked |
| SignalLayout.SigreturnFpu | src/freebsd/compat/user_exec_machdep.c:283-314 | it leaves the FPU alone, drops its state or loads that of the context, with the extended state over the first bytes of the present one, as format and owner say |
| SignalOrderly.RunKeepsInv | src/freebsd/compat/user_exec_machdep.c:107-329 | in every run whose frames fit and whose code is disciplined, all live frames stay nested, intact and acceptable to `sys_sigreturn` |
| SignalOrderly.LiveFramesApart | src/freebsd/compat/user_exec_machdep.c:148-165 | in every state of such a run any two live frames are aligned and disjoint |
| SignalOrderly.FrameClearOfRedZone | src/freebsd/compat/user_exec_machdep.c:156-157 | a frame put down in such a run does not meet the 128 bytes below the interrupted stack pointer |
| SignalOrderly.OrderlyIsBeneath | src/freebsd/compat/user_exec_machdep.c:133-166 | the stack of every state of such a run is one of those the exact conditions quantify over |
| SignalOrderly.NextFrameApart | src/freebsd/compat/user_exec_machdep.c:148-165 | at any state of such a run, an alternate-stack frame that meets the exact condition is apart from all live frames, whether it fits or not |
| SignalOrderly.OrderlySpares | src/freebsd/compat/user_exec_machdep.c:133-166 | every step of such a run spares every live frame |
| SignalOrderly.OrderlyUnwinds | src/freebsd/compat/user_exec_machdep.c:227-329 | so in such runs every signal that returns unwinds, to any depth |
| SignalOrderly.WritesBelowEntryAreSafe | src/freebsd/compat/user_exec_machdep.c:133-166 | a handler that writes only below its entry stack pointer on its own stack leaves every live frame alone |
| SignalOverrun.RestartLosesContext | src/freebsd/compat/user_exec_machdep.c:148-157 | two signals that both switch to the alternate stack share one frame: the first one's is not intact, and its return brings back what the second one interrupted |
| SignalOverrun.RestartRun | src/freebsd/compat/user_exec_machdep.c:148-157 | a run with the stack pointer moved off the alternate stack in which the outer signal does not unwind |
| SignalOverrun.OverrunStart | src/freebsd/compat/user_exec_machdep.c:148-165 | an orderly run, from any thread at one stack pointer, to a handler deep in the alternate stack |
| SignalOverrun.OverrunHits | src/freebsd/compat/user_exec_machdep.c:148-165 | the next signal in that run lands on the live main-stack frame, which is no longer intact |
| SignalOverrun.OverrunReturns | src/freebsd/compat/user_exec_machdep.c:244-328 | while the third frame is in place the outer signal's return is not both accepted and right |
| SignalOverrun.OverrunRun | src/freebsd/compat/user_exec_machdep.c:107-329 | a run, orderly up to its third delivery, in which that delivery damages the first frame and the first signal does not unwind |
| SignalOverrun.RunsGoWrong | src/freebsd/compat/user_exec_machdep.c:107-329 | threads to start both failing runs from exist |
| SignalThread.Thread.SendSig | src/freebsd/compat/user_exec_machdep.c:107-216 | the field-by-field updates of `sendsig` amount to the delivery function that `HandlerStarts`, `HandlerFinds` and the results on frames are about, including the case in which a failed copy kills the process |
| SignalThread.Thread.SysSigreturn | src/freebsd/compat/user_exec_machdep.c:227-329 | the in-place return amounts to the return function that `SigreturnExact` and `SigreturnInstalls` are about, with every error code, and an error leaves the thread as it was |
| IntrCounters.FreeVectorLeavesRoom | src/freebsd/compat/user_intr_machdep.c:212-240 | a vector without a source means fewer sources than vectors |
| IntrCounters.IntrState.constructor | src/freebsd/compat/user_intr_machdep.c:157-203 | the ledger of counters starts with the dummy slot only and the capacity of one, two per vector and the allowance |
| IntrCounters.IntrState.RegisterSource | src/freebsd/compat/user_intr_machdep.c:212-240 | registration fails exactly for a taken vector or a failed event creation and then changes nothing; otherwise the vector owns the next two slots |
| IntrCounters.IntrState.IntrcntRegister | src/freebsd/compat/user_intr_machdep.c:437-453 | the bound asserted in the source always holds, and the pair is given to one vector only |
| IntrCounters.IntrState.IntrcntAdd | src/freebsd/compat/user_intr_machdep.c:456-466 | within the allowance there is always a slot left, and it is the new counter's alone |
| IntrCounters.IntrState.SlotsDisjoint | src/freebsd/compat/user_intr_machdep.c:437-466 | in every reachable state pairs of different sources and single counters never share a slot and lie in range |
| IntrCounters.IntrState.CapacityIsExact | src/freebsd/compat/user_intr_machdep.c:178-191 | with all vectors registered there is room for one more counter if and only if the allowance is not used up |
| IntrBalance.Balancer.IntrNextCpu | src/freebsd/compat/user_intr_machdep.c:584-609 | the search ends at the first of its places that is both an interrupt CPU and a CPU of the domain, which is the next such one in cyclic order |
| IntrBalance.SearchEndsExactly | src/freebsd/compat/user_intr_machdep.c:584-609 | the search reaches an eligible CPU, from wherever it starts, if and only if there is one |
| IntrBalance.Balancer.IntrInitCpus | src/freebsd/compat/user_intr_machdep.c:567-578 | every domain starts at its lowest interrupt CPU |
| IntrBalance.Balancer.Balance | src/freebsd/compat/user_intr_machdep.c:759-805 | every listed unbound source whose assignment succeeds is on an interrupt CPU of its own domain; if all succeed each domain is spread as the next row says; bound and unlisted sources stay |
| IntrBalance.PlacedIsSpread | src/freebsd/compat/user_intr_machdep.c:784-799 | over the interrupt CPUs of a domain the numbers of sources differ by at most one, the last source of the table is on the lowest CPU and each earlier one on the next CPU in cyclic order |
| IntrBalance.RoundIsMod | src/freebsd/compat/user_intr_machdep.c:584-609 | the place reached by k cyclic steps among n CPUs is k modulo n |
| IntrBalance.BalanceIsFair | src/freebsd/compat/user_intr_machdep.c:784-799 | when assignments succeed the loads of any two eligible CPUs of a domain differ by at most one, and only eligible CPUs are used |
| Sysinit.ExchangeSort | src/freebsd/compat/user_init_main.c:210-220 | the table becomes a permutation of itself sorted by subsystem and, within a subsystem, by order |
| Sysinit.Startup.SysinitAdd | src/freebsd/compat/user_init_main.c:137-166 | the prepared table is the newest table so far followed by the added set, entry for entry |
| Sysinit.Startup.Traverse | src/freebsd/compat/user_init_main.c:237-290 | each task run is a least one not yet done; a restart has checked off at least one more task; without restart nothing in the table is left |
| Sysinit.Startup.MiStartup | src/freebsd/compat/user_init_main.c:181-292 | the whole loop of sorts, runs, merges and restarts ends, with a complete legal schedule and every called task marked done |
| SysinitSpec.EachCallIsLeast | src/freebsd/compat/user_init_main.c:205-290 | each call runs a task of least subsystem and order among all registered by then and not called yet, across additions and restarts |
| SysinitSpec.EveryTaskRunsOnce | src/freebsd/compat/user_init_main.c:205-290 | a task runs if and only if it was ever registered and is not a dummy, and never twice, if nothing was added before startup |
| SysinitSpec.AddedBeforeStartup | src/freebsd/compat/user_init_main.c:145-165 | with sets added before startup all tasks still run if and only if every runnable static task other than the first one called is also in an added set |
| SysinitSpec.SafeBeforeStartup | src/freebsd/compat/user_init_main.c:145-165 | checkable before startup, for every behaviour of the tasks: if every runnable static task outside the prepared sets comes strictly before all other runnable static ones, all tasks run |
| SysinitSpec.PreparedExact | src/freebsd/compat/user_init_main.c:145-165 | the same condition is necessary and sufficient when runnable static keys do not tie and no task adds a static one; with nothing runnable in the static set no call is made, and all run if and only if nothing prepared is runnable |
| SysinitSpec.PreparedAlways | src/freebsd/compat/user_init_main.c:145-165 | with or without ties, when no task adds a static one: every startup, however it orders equal keys, runs all tasks if and only if that condition holds, or, with nothing runnable in the static set, nothing prepared is runnable |
| SysinitSpec.StaticTaskLost | src/freebsd/compat/user_init_main.c:145-165 | a concrete startup in which a static task never runs |
| Physmap.SlotDecidesOverlap | src/freebsd/compat/user_matchdep.c:490-502 | in a sorted map, looking at the first region that ends above the base decides whether anything overlaps |
| Physmap.MergedCovers | src/freebsd/compat/user_matchdep.c:504-535 | merging or inserting adds exactly the addresses of the new region to those covered |
| Physmap.FindSlot | src/freebsd/compat/user_matchdep.c:484-502 | the scan, on any array, finds the first pair that ends above the base, reports overlap exactly by its start and the 64-bit end, and otherwise the place to go in |
| Physmap.InsertPair | src/freebsd/compat/user_matchdep.c:524-535 | the shifting loop inserts one pair and moves every later pair down by one, leaving the rest of the array |
| Physmap.AddPhysmapEntry | src/freebsd/compat/user_matchdep.c:473-537 | for every array, index and 64-bit base and length, wrap-around included, array, index and result become what the entry function says |
| Physmap.EntryIsDone | src/freebsd/compat/user_matchdep.c:473-537 | on a well-formed map and for a region that ends below 2^64, or that is ignored, the entry function is right: ignored exactly if empty or overlapping, otherwise merged or inserted with the map sorted, disjoint and zero behind its end, refused exactly when it needs a pair and none is left |
| Physmap.WrappedExact | src/freebsd/compat/user_matchdep.c:490-536 | a region whose end wraps around does no damage, that is leaves a well-formed map with no address lost or is refused with the array as it was, if and only if its wrapped end still seems to overlap or it needs a pair and none is left |
| Physmap.WrappedExample | src/freebsd/compat/user_matchdep.c:490-536 | two pages across 2^64 into an empty map leave a pair that ends before it begins |
| Physmap.BiosAddSmapEntries | src/freebsd/compat/user_matchdep.c:539-559 | from any array, index and list of entries, each entry is added in turn up to the end or to the first refusal, and the last map is the result |
| Physmap.TraceCovers | src/freebsd/compat/user_matchdep.c:539-559 | from an empty map, if memory entries end below 2^64 or are ignored, the map is at every moment well-formed and covers exactly the memory regions that, taken in order, overlapped nothing accepted before |
| Physmap.AcceptedIsMemory | src/freebsd/compat/user_matchdep.c:539-559 | an address the map accepts is in an entry the firmware marked as memory |
| Physmap.FirstIsAccepted | src/freebsd/compat/user_matchdep.c:539-559 | a memory entry that shares no address with an earlier one is accepted whole |
| Physmap.FoldStops | src/freebsd/compat/user_matchdep.c:516-522 | such a fold stops early only at a region that overlaps nothing and needs a pair when none is left, and leaves the array as it was |
| PhysAvail.UsableExact | src/freebsd/compat/user_matchdep.c:708-731 | a page is usable if and only if it lies wholly in its region and below Maxmem, outside the kernel's range and the dcons buffer, and is not bad |
| PhysAvail.TakePage | src/freebsd/compat/user_matchdep.c:798-812 | a good page extends the last chunk or starts a new one, and is refused exactly when all chunks are taken |
| PhysAvail.GatherPages | src/freebsd/compat/user_matchdep.c:708-829 | the chunks are ascending, disjoint and page-aligned and hold usable pages only, and all of them unless every chunk was taken; `physmem` has grown by their page count |
| PhysAvail.TrimmedIsPrefix | src/freebsd/compat/user_matchdep.c:843-848 | trimming keeps a prefix of the chunks, well formed and ending in one large enough for the message buffer; every chunk it drops is too small |
| PhysAvail.TrimChunks | src/freebsd/compat/user_matchdep.c:843-848 | the trimming loop ends when some chunk is large enough and takes exactly the dropped chunks' pages off `physmem` |
| PhysAvail.GetMemSize | src/freebsd/compat/user_matchdep.c:687-848 | no page left in `phys_avail` is the kernel's, in the dcons buffer or bad, each lies wholly in a region and below Maxmem, and unless 63 chunks were taken every such page was gathered; the last chunk has room, `physmem` grows by the page count; succeeds exactly if some gathered chunk is large enough |
| PhysAvail.BuildPhysAvail | src/freebsd/compat/user_matchdep.c:539-848 | from the firmware's map to `phys_avail`: when all entries were taken, every page of it also lies wholly in memory the firmware reported and the map accepted |
| AtomicBits.RunIsLinear | src/freebsd/compat/atomic.c:8-39 | in every interleaving, with spurious failures, the calls in the order they took effect form a sequential history ending in the present word, and each finished call returned the bit it found there |
| AtomicBits.TakesEffectWhenFinishing | src/freebsd/compat/atomic.c:8-39 | a call takes effect at one of its own steps, the one that finishes it, and returns the bit as it is at that step |
| AtomicBits.CallActsOnItsBit | src/freebsd/compat/atomic.c:8-39 | in every interleaving a call with argument v returns bit v modulo 64 of the word as it is before its last step, and that step sets or clears this bit and leaves all others |
| AtomicBits.RunBalance | src/freebsd/compat/atomic.c:8-39 | in every state each bit is its initial value plus winning sets minus winning clears |
| AtomicBits.RunWinnersAlternate | src/freebsd/compat/atomic.c:8-39 | in every run, of two successive winners on a bit one set it and the other cleared it |
| AtomicBits.RunOneSetterWins | src/freebsd/compat/atomic.c:8-22 | in every run from a clear bit nobody has cleared, once a set has returned exactly one set was told the bit was clear, and two threads so told are the same |
| Bits.BitIsDigit | src/freebsd/compat/atomic.c:14 | bit i of a word is the binary digit of weight 2^i |
| Ioperm.PortChanges | src/freebsd/compat/sys_matchdep.c:441-446 | changing a port's bit changes that port and no other, those of its byte included |
| Ioperm.DeniedIsBit | src/freebsd/compat/sys_matchdep.c:441-446 | the bit of port p is bit p modulo 8, from the low end, of byte p / 8 |
| Ioperm.Pcb.SetIoperm | src/freebsd/compat/sys_matchdep.c:393-448 | fails exactly on a denied or out-of-range request, 32-bit wrap-around included, and then changes nothing; otherwise exactly the ports of the range get the permission and the guard byte stays 0xff |
| Ioperm.Pcb.GetIoperm | src/freebsd/compat/sys_matchdep.c:450-480 | reports the permission at a port and the length of the longest run of ports from it with that permission |
| Ioperm.Pcb.SetMany | src/freebsd/compat/sys_matchdep.c:409-447 | after any sequence of calls every port has the permission of the latest successful call that covers it, and is denied if there is none |
| NumberText.NumeralValue | src/freebsd/compat/user_subr_prf.c:116-130 | the digits of a number in any base from 2 to 36 read back as the number, with no leading zero |
| NumberText.NumeralFits | src/freebsd/compat/user_subr_prf.c:81 | no 64-bit number needs more than MAXNBUF characters with its NUL, in any base |
| NumberText.Ksprintn | src/freebsd/compat/user_subr_prf.c:116-130 | the buffer read backwards from the returned place to its NUL is the numeral, and nothing behind it is written |
| EnvArray.ShiftIsExact | src/freebsd/compat/user_kern_environment.c:409-415 | shifting back detects exactly the multiplications that leave the signed 64-bit range |
| EnvArray.ItemIsExact | src/freebsd/compat/user_kern_environment.c:358-458 | a stored element is the number `strtoq` read times 2^40, 2^30, 2^20, 2^10 or 1 as its suffix says, without wrap-around and in its type's range; it is the number written times that if and only if that number fits 64 bits |
| EnvArray.AcceptedExactly | src/freebsd/compat/user_kern_environment.c:358-455 | an element is accepted if and only if it is a number with a suffix or separator behind it, not negative where that is not allowed, and scaled it fits 64 bits and its type |
| EnvArray.NextItem | src/freebsd/compat/user_kern_environment.c:402-407 | the next element starts behind the suffix and all tabs, commas and blanks, and at nothing of these |
| EnvArray.LiteralRead | src/freebsd/sys/libkern/strtoq.c:63-80 | behind white space and a sign a number is read in base 16 after 0x, in base 8 after 0 and in base 10 otherwise, up to the first character that is not a digit |
| EnvArray.SaturatedItem | src/freebsd/sys/libkern/strtoq.c:49-125 | a number out of the range of `strtoq` gets through only without suffix and into 64-bit elements |
| EnvArray.ParseAll | src/freebsd/compat/user_kern_environment.c:356-460 | the loop always advances, accepts exactly the lists whose every item is accepted and finds room, stores them in order and writes nothing beyond the capacity |
| EnvArray.GetenvArray | src/freebsd/compat/user_kern_environment.c:334-468 | succeeds exactly on a present, nonempty and wholly readable value, and then reports the bytes filled |
| EnvArray.ListRoundTrip | src/freebsd/compat/user_kern_environment.c:334-468 | any nonempty list of in-range values printed in base 10 and joined with commas is read back as that list |
| EnvArray.RoundTripExact64 | src/freebsd/sys/libkern/strtoq.c:49-125 | a printed value comes back into a 64-bit element if and only if it fits a signed 64-bit integer, and otherwise becomes the largest one |
| KernEnv.BlockAt | src/freebsd/compat/user_kern_environment.c:254-266 | every entry of an environment block is found at its offset with its NUL behind it |
| KernEnv.KernenvNext | src/freebsd/compat/user_kern_environment.c:254-266 | finds the string behind the present one, or nothing at the end of the block |
| KernEnv.LookupExact | src/freebsd/compat/user_kern_environment.c:268-285 | the entry found is the first that begins with the name and an equals sign, so neither one for a longer name nor one for a shorter name is, and its value is what follows |
| KernEnv.GetenvStaticFrom | src/freebsd/compat/user_kern_environment.c:268-285 | finds the value of the first entry that begins with exactly the name and an equals sign if there is one, and nothing otherwise |
| KernEnv.GetenvStatic | src/freebsd/compat/user_kern_environment.c:287-299 | the machine-dependent block wins over the configured one |
| KernEnv.PrintedEntryRoundTrip | src/freebsd/compat/user_kern_environment.c:268-468 | a list of values printed into an entry of a block is what looking the name up and parsing its value give back |
| PutBuf.StreamConserved | src/freebsd/compat/user_subr_prf.c:132-172 | what was flushed followed by what is buffered is the sequence of characters put, while none is NUL |
| PutBuf.ConservedExactly | src/freebsd/compat/user_subr_prf.c:132-172 | a reader is shown exactly the characters put if and only if none of them is NUL |
| PutBuf.FlushedExactly | src/freebsd/compat/user_subr_prf.c:141-160 | the buffer goes out exactly on a newline and when two places are left, and is then empty; on any other character nothing goes out |
| PutBuf.BufferIsShort | src/freebsd/compat/user_subr_prf.c:141-172 | the buffer always holds the last characters put, none of them a newline and at most its size minus three |
| PutBuf.PutcharArg.constructor | src/freebsd/compat/user_subr_prf.c:132-172 | a buffer of at least three characters starts empty and terminated |
| PutBuf.PutcharArg.Putbuf | src/freebsd/compat/user_subr_prf.c:132-172 | one character goes through the abstract buffer; used and remaining room add up to the size, the terminator is in bounds and more than two places remain |
| PutBuf.PutcharArg.Kputchar | src/freebsd/compat/user_subr_prf.c:179-195 | a character for console and log goes through once, and a NUL for the log alone is dropped |
| PutBuf.PutcharArg.PutMany | src/freebsd/compat/user_subr_prf.c:132-195 | any characters put through an empty buffer come out in order, exactly if none is NUL |
| InCksum.FoldIsMod | src/freebsd/machine/in_cksum.h:57-63 | end-around carry folds to 0xffff exactly the nonzero multiples of 65535 (section 2 of RFC 1071) |
| InCksum.HopKeepsChecksum | src/freebsd/machine/in_cksum.h:57-63 | a header of any length verifies after its TTL is decremented and its checksum updated if and only if it did before |
| InCksum.HopsKeepChecksum | src/freebsd/machine/in_cksum.h:57-63 | the same over any number of hops the TTL allows |
| InCksum.Forward | src/freebsd/machine/in_cksum.h:57-63 | the in-place update takes one from the TTL byte, changes no word but that and the checksum, and keeps a verifying header verifying |

## Left out

- Callout cancellation races, `CS_DRAIN` and the `cancel` and `waiting` fields: softclock runs ordinary callouts in slot 1 while reset and stop look in slot 0, so these branches are not taken. Stopping a callout whose handler has been taken off the wheel does not prevent the handler.
- Callout migration between CPUs, direct and locally allocated callouts, callout locks, statistics and profiling; one thread only, with `ticks` fixed during a `callout_tick`.
- Fields of a callout structure are kept in maps by callout identity, bucket lists as sequences: link pointers and their aliasing are not modelled.
- Wheel sizes that overflow a C int, and a negative `kern.ncallout`.
- The FPU: its state is words and bytes exchanged as they are; `fpstate_drop` and ownership flags are not modelled.
- The alternate stack is fixed during a run; `sigaltstack` calls, `sigsuspend` masks, the COMPAT_43 stack flag and the extra trap signal for a bad code selector are left out.
- SignalOrderly.RunKeepsInv: is about runs whose frames fit their stack, and so are LiveFramesApart, OrderlySpares and OrderlyUnwinds; SignalNesting.SignalsUnwind is about all runs, and NextFrameApart covers a frame that does not fit.
- The window between the two locks in `intr_register_source`, counter names, interrupt handlers and their threads, `intr_shuffle_irqs`, and `intr_next_cpu` before round-robin is active.
- IntrBalance.Balancer.IntrNextCpu: requires an eligible CPU in the domain; without one the search in the source does not end, as SearchEndsExactly states.
- The load comparator and `qsort` of the balancer: the table may be in any order.
- The order of sysinit tasks with equal keys, which the exchange sort does not preserve; verbose output; the panic when memory runs out.
- PhysAvail.BuildPhysAvail: requires memory entries that end below 2^64; WrappedExact says what another one does to the map.
- The contents of the map beyond its index after an entry was refused.
- The computation of Maxmem and the adjustment of the first region's base, the memory test itself, `dump_avail`, and cutting off the message buffer in `getmemsize`.
- PhysAvail.GetMemSize: without a chunk large enough the trimming loop of the source runs off the array; the model stops there with None.
- Lock freedom of the atomic loops and weak memory orders.
- TSS and descriptor setup behind the I/O bitmap.
- Locale and other callers of `strtoq`, which is modelled as a function; the dynamic environment; the bytes of stored elements, which are numbers here.
- The rest of `kvprintf`, the log, and what the host does with console output.
- Equality of the updated checksum with a recomputed one, which the one's-complement zero of section 3 of RFC 1624 rules out.
- Host hooks, socket wrappers, the virtual Ethernet device, mbuf and vnode glue, clocks, CPU identification and the demo programs: plumbing, tables or calls into code outside these files.
