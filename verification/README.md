# Micro-Joule Attribution Engine: a verified model

MJAE turns power telemetry into per-process micro-joule totals and seals them. This project models the
accounting pipeline from the energy meter to the signed seal and proves what it conserves, what it bounds and
where its documentation promises more than the code does:

- `Saturating`, `Sums`: u64 saturation as min(x, 2^64 - 1), sums over sequences and maps.
- `Attribution`: the energy arithmetic, a u64-only fast form against the exact forms.
- `RegistryMachine`, `RegistryTheorems`, `WalkTheorems`, `SnapshotTheorems`, `TotalTheorems`, `RemovalTheorems`,
  `RemovalAccounts`, `Races`: the lock-free registry as a step machine (lookup, get-or-insert, load, swap, real and
  spurious failure, walk, unlink) over any number of threads, theorems over every run of it, and three runs that
  refute the documentation.
- `Registry`: the same registry for one thread at a time, which the rest of the model writes to.
- `SamplingLoop`, `Metering`, `ConcurrentLoop`: the 100 ms differential sampling loop, alone, coupled with a metering
  provider, and on the step machine beside other writers.
- `LinuxProvider`, `RaplRun`, `WindowsProvider`, `AppleSilicon`, `PendingQueue`: the providers.
- `StableSort`, `Json`, `JsonText`, `Utf8`, `Seal`: canonical JSON, its text and bytes, and the seal.

Counters, clocks, process lists, channel energies and range files are inputs; an error from any of them is an
input too. Atomic operations are sequentially consistent steps; `SkipMap::get_or_insert` is one step that
returns the cell living in the map, and an iterator step moves to the least key at or above its position, with
the read of the cell as a separate step. `log`, `lost` and `failures` in the machine's state are history that
no step reads.

Where code and documentation differ, the code is followed:

- `seal` is documented to give byte-identical payloads regardless of the order of its input
  (src/core/signer.rs:131-135). It does if and only if records that tie on (pid, start, end) are identical;
  otherwise the stable sort keeps the caller's order (`Seal.SealOrderIndependentIff`,
  `Seal.SealOrderCounterexample`).
- `remove` is documented to return the final total of a process (src/core/registry.rs:96-97). When it reads the
  unlinked cell, the process is final if and only if no add to it is in flight anywhere, also before its lookup, and
  the cell is final if and only if it is full or no add that found it is still on its way
  (`RemovalTheorems.RemovedFinalIff`, `Races.RemoveCanLoseAnAdd`). What is lost is exactly what is committed to cells
  already read (`RemovalAccounts.RemovalsConserve`).
- `snapshot` is documented to be a consistent view (src/core/registry.rs:13-14). Without removals a racing one is some
  state of the run if and only if no change that the walk missed comes before a change that it saw
  (`SnapshotTheorems.SnapshotIsSomeStateIff`, `Races.SnapshotCanBeInconsistent`); one changing process is harmless
  (`SnapshotTheorems.OneWriterSnapshot`).
- `window_energy_uj` is not always the energy of the window: beyond the guard `FastFormExact` the inner
  saturating product clips the sub-second part (`Attribution.FastFormRefinesExactForm`,
  `Attribution.FastFormLosesEnergyBeyondTheGuard`).
- `total_micro_joules` is documented as a strict lower bound (src/core/registry.rs:118-120). Without removals it is
  everything committed by its end less what was committed behind its cursor, so it is strictly lower if and only if
  that is positive and the rest is below the ceiling (`TotalTheorems.StrictBoundIff`, `Races.TotalCanBeEverything`).
- The split comments that the remainder goes to the lowest processes (src/core/provider.rs:210-212). It goes to the
  first ones of the list, which are the lowest if and only if each of them is at most every later one
  (`SamplingLoop.ExtraToLowestIff`, `SamplingLoop.ExtraCanMissTheLowest`); the ascending active set of Linux is such
  a list.

## Model

| member | source | states |
|---|---|---|
| Attribution.FastFormRefinesExactForm | src/core/attribution.rs:9-64 | the u64-only window energy never exceeds the exact floor(p*w/1e9), which is the deterministic model of a process holding the whole window, and equals it if and only if the sub-second quotient is not clipped or both saturate |
| Attribution.FastFormLosesEnergyBeyondTheGuard | src/core/attribution.rs:9-16 | a concrete power and window where the fast form clips 10^13 to 18446744073 |
| Attribution.WindowEnergyMonotone | src/core/attribution.rs:9-16 | window energy is monotone in power and window for all u64 values, across whole-second boundaries and inside the saturating range |
| Attribution.BurstEnergyIsExcess | src/core/attribution.rs:3-24 | burst energy and idle energy over a window together stay within the energy of the active power, and in the exact range they miss it by less than a micro-joule |
| Attribution.RoundTrip | src/providers/linux.rs:247-254 | energy to power to energy never gains and, in the exact power range, loses at most one micro-joule per started second |
| Attribution.WindowSplitting | src/core/attribution.rs:9-16 | cutting a window into n pieces never invents energy and loses at most n - 1 micro-joules, saturation included |
| Attribution.PerProcessBounds | src/providers/windows.rs:361-390 | n equal deterministic slices hand out at most burst*window/1e9 and fall short by less than n + burst*(n-1)/1e9 |
| Attribution.AcceleratorTimeClamped | src/core/attribution.rs:44-64 | accelerator time is capped at the busy time, and up to it the result is the saturated floor |
| Attribution.AcceleratorShares | src/core/attribution.rs:26-64 | for any division of the busy time over processes the attributions add up to the whole, less at most one micro-joule per further process |
| Attribution.FallbackShares | src/core/attribution.rs:77-84 | CPU shares of a RAPL delta are within 1e-6 of a micro-joule per share of their exact part, from below |
| Attribution.FallbackOfWholeDelta | src/core/attribution.rs:77-84 | shares summing to one million give out the delta up to less than one micro-joule per share |
| Attribution.FallbackClamped | src/core/attribution.rs:77-84 | no share yields more than the delta and a share of at least one million yields all of it |
| Attribution.NvmlAgreesWithDeterministic | src/core/attribution.rs:86-98 | milliwatts times milliseconds is exactly the deterministic energy in microwatts and nanoseconds |
| RegistryMachine.StepKeepsInv | src/core/registry.rs:66-154 | every step keeps: cells hold the saturated sum of their commits, every commit read the sum of the earlier ones, lost cells are unreferenced, walks collect ascending keys within what was committed |
| RegistryMachine.RunKeepsInv | src/core/registry.rs:66-154 | the invariant holds in every state of every run, in any interleaving and with removals |
| RegistryTheorems.StepRefines | src/core/registry.rs:66-102 | each step is one atomic operation on the map of totals or invisible; a successful swap is the whole addition and returns the new total |
| RegistryTheorems.SoloAdd | src/core/registry.rs:66-80 | a thread running alone completes its add with the effect of the sequential registry |
| RegistryTheorems.LostCellsNeverWritten | src/core/registry.rs:74-79 | a cell that lost the get-or-insert race is never committed to and stays zero |
| RegistryTheorems.NoLostDeltas | src/core/registry.rs:48-80 | without removals every process total is the saturated sum of its committed deltas at every point of every run, all on one cell |
| RegistryTheorems.DeltasAccounted | src/core/registry.rs:66-80 | in every run the deltas asked for are the deltas committed plus the deltas in flight |
| RegistryTheorems.QuiescentTotal | src/core/registry.rs:232-282 | once no add for a process is in flight its total is the saturated sum of everything added to it |
| RegistryTheorems.CellsMonotone | src/core/registry.rs:82-94 | cell values never decrease along a run |
| RegistryTheorems.SwapSawNoChange | src/core/registry.rs:144-154 | a successful swap replaced a value nobody changed since the thread last read it |
| RegistryTheorems.ReturnsFollowCommitOrder | src/core/registry.rs:144-154 | each returned total is the saturated sum of the deltas committed to the cell up to its own, so returns do not decrease in commit order |
| RegistryTheorems.RetriesAreCharged | src/core/registry.rs:144-154 | each real failure of a call is paid for by a value-changing commit of another thread on the same cell since the call's first load |
| RegistryTheorems.AddsAccounted | src/core/registry.rs:66-80 | adds called are adds committed plus adds in flight, in every run |
| RegistryTheorems.RetriesBounded | src/core/registry.rs:144-154 | with n threads, contention forces at most n - 1 retries per add over all threads together |
| WalkTheorems.WalkNeverOverReports | src/core/registry.rs:116-140 | a finished walk is ascending and never reports more than the saturated sum of all committed deltas, whatever is added or removed meanwhile |
| WalkTheorems.WalkSandwiched | src/core/registry.rs:116-140 | without removals a racing walk lies between the total when it began and the total when it ends, and its snapshot covers every process known at the start with values between start and end |
| SnapshotTheorems.SnapshotIsStateIff | src/core/registry.rs:130-140 | a racing snapshot is the registry as it was at position k of its walk if and only if it saw every slot change before k and missed every one from k on |
| SnapshotTheorems.SnapshotConsistentIff | src/core/registry.rs:130-140 | it is the registry at some moment of its walk if and only if no change it missed comes before a change it saw |
| SnapshotTheorems.SnapshotIsSomeStateIff | src/core/registry.rs:13-140 | the same condition decides whether it is any state of the whole run |
| SnapshotTheorems.OneWriterSnapshot | src/core/registry.rs:130-140 | when the slot of only one process changes during the walk, the snapshot is a state of the walk |
| TotalTheorems.TotalIsAllDeltas | src/core/registry.rs:66-128 | without removals the registry total is the saturated sum of all committed deltas at every point of every run, however many slots are saturated |
| TotalTheorems.WalkTotalExact | src/core/registry.rs:116-128 | a racing total is the saturated sum of everything committed by its end less what was committed to processes already passed |
| TotalTheorems.StrictBoundIff | src/core/registry.rs:116-128 | it is strictly below the recorded energy if and only if something was missed and what it counted is below the ceiling |
| RemovalTheorems.FinalProcessIff | src/core/registry.rs:66-102 | without further calls nothing more is committed for a process if and only if no add with a positive delta to it is in flight |
| RemovalTheorems.FinalCellIff | src/core/registry.rs:96-102 | the value of an unlinked cell is final in every continuation if and only if it is full or no add with a positive delta is headed to it |
| RemovalTheorems.RemovedFinalIff | src/core/registry.rs:96-102 | both conditions at the moment when a removal of any run reads its cell, and the value it returns |
| RemovalAccounts.RemovalsConserve | src/core/registry.rs:66-102 | below the ceiling, what was committed for a process is what removals returned, what its slot and the unread unlinked cells hold, and what was committed to cells already read |
| RemovalAccounts.OrderlyRemovalsConserve | src/core/registry.rs:66-102 | when every removal reads its cell with no add headed to it, the returned totals and the live total add up to everything committed |
| Races.RemoveCanLoseAnAdd | src/core/registry.rs:96-102 | a run from the empty registry in which a removal returns 0 while an add of 5 commits to the unlinked cell |
| Races.TotalCanBeEverything | src/core/registry.rs:116-128 | a run from the empty registry whose total is all the recorded energy, not strictly less |
| Races.SnapshotCanBeInconsistent | src/core/registry.rs:130-140 | a run from the empty registry with a snapshot that equals no state of the run |
| Registry.AmalgafyRegistry.AddMicroJoules | src/core/registry.rs:66-80 | adds saturating to the slot, creating it if absent, and returns its new total, whatever the number of spurious failures |
| Registry.AmalgafyRegistry.Remove | src/core/registry.rs:98-102 | returns and removes the slot; the sum of the rest and the returned value is the old sum |
| Registry.AmalgafyRegistry.TotalMicroJoules | src/core/registry.rs:122-128 | the running saturating total over the walk is the saturated sum of the map |
| Registry.AmalgafyRegistry.Snapshot | src/core/registry.rs:135-140 | exactly the tracked slots, ascending by process |
| Registry.AddToTotal | src/core/registry.rs:122-154 | an addition moves the saturated total by exactly its delta or to the ceiling, even when the slot saturates |
| Registry.AddAllTotal | src/core/registry.rs:66-128 | any sequence of additions moves the saturated total by the sum of the amounts |
| Registry.AddAllSlot | src/core/registry.rs:66-94 | any sequence of additions moves each slot by what it was given, and a slot exists once it was named |
| SamplingLoop.SplitConserves | src/core/provider.rs:196-220 | the equal split with remainder hands out the delta exactly, for every list of processes |
| SamplingLoop.SplitShape | src/core/provider.rs:195-221 | every listed process gets its share in list order, shares differ by at most one, and energy with no known process goes to process 0 |
| SamplingLoop.ExtraToLowestIff | src/core/provider.rs:203-220 | the remainder goes to the lowest identifiers if and only if each of the first delta mod n processes is at most every later one |
| SamplingLoop.ExtraCanMissTheLowest | src/core/provider.rs:203-220 | splitting 1 over processes 9 and 1 gives it to 9 |
| SamplingLoop.DeltaIsExcessEnergy | src/core/provider.rs:189-193 | a tick's delta is the power above idle over the time since the previous sample, rounded down and capped, and nothing for a backward clock or no excess |
| SamplingLoop.RunConserves | src/core/provider.rs:167-238 | after every sequence of successes and failures with any active lists, the registry total equals the cumulative delta and both are the saturated sum of the energies of adjacent successes |
| SamplingLoop.RunSlot | src/core/provider.rs:196-221 | after every run a slot holds the saturated sum of what was pushed to its process |
| SamplingLoop.UnattributedRun | src/core/provider.rs:195-201 | while no process is known the slot of process 0 is the cumulative delta and no other slot exists |
| SamplingLoop.RunFair | src/core/provider.rs:203-220 | with a fixed ascending active list a lower process leads a higher one by between 0 and the number of ticks |
| SamplingLoop.CadenceLosesLittle | src/core/provider.rs:189-193 | at constant burst power n + 1 samples account for the whole span up to n - 1 micro-joules and never more |
| SamplingLoop.Sampler.Distribute | src/core/provider.rs:195-221 | the remainder loop writes exactly the specified split into the registry |
| SamplingLoop.Sampler.OnTick | src/core/provider.rs:173-238 | one tick is one step of the loop's state machine: error, re-seed, or push |
| SamplingLoop.Sampler.RunFrom | src/core/provider.rs:160-240 | the loop over any ticks follows the state machine and ends with registry total equal to the cumulative delta |
| ConcurrentLoop.CommitsFollowCalls | src/core/registry.rs:66-80 | in every run each thread commits exactly what it called, in that order, up to the one addition underway |
| ConcurrentLoop.SlotAmongWriters | src/core/registry.rs:66-94 | in any interleaving a slot is the saturated sum of what one thread gave the process and what the others committed |
| ConcurrentLoop.LoopAmongWriters | src/core/provider.rs:167-238 | with the loop on one thread of the machine, the registry total between its additions is its cumulative delta plus the other writers' commits |
| PendingQueue.Drain | src/providers/linux.rs:313-334 | the drain loop pushes the records in order and returns their saturated sum |
| PendingQueue.QueueConserves | src/providers/linux.rs:313-334 | over every interleaving of enqueues and syncs, drained followed by pending is exactly what was queued, and slots hold the saturated sums of their drained records |
| LinuxProvider.FencesConserved | src/providers/linux.rs:125-195 | the queue theorem for every trace of fence inits, signals, force-idles, enqueues and syncs of the provider |
| LinuxProvider.FenceCharged | src/providers/linux.rs:176-186 | a fence is charged to its submitter over its window with at most floor(power*(signal - submit)/1e9), exactly that if and only if the fast form is exact on it, and nothing when the clock ran backwards |
| LinuxProvider.SlotIsFenceEnergy | src/providers/linux.rs:125-195 | after every trace a slot holds at most the saturated energy of the process's fences and queued records up to the last sync, and exactly that for exact fences |
| LinuxProvider.OutstandingIsReflectedWalk | src/providers/linux.rs:142-192 | the unbounded fence count is the largest suffix balance of inits over signals since the last force-idle |
| LinuxProvider.FenceCountIsReflectedWalk | src/providers/linux.rs:142-192 | the stored u32 count is that number at every point of a trace if and only if it never leaves u32, and no zero is stored |
| LinuxProvider.CountSaturates | src/providers/linux.rs:142-145 | while none of its fences is signalled a process's count is the number of its inits, and from 2^32 on it stays at the ceiling |
| LinuxProvider.ActiveWhileOutstanding | src/providers/linux.rs:136-192 | on traces where signals never outrun inits a process is active exactly while a fence is outstanding |
| LinuxProvider.Provider.MarkPidActive | src/providers/linux.rs:142-145 | one more fence, saturating |
| LinuxProvider.Provider.ActivePidSet | src/providers/linux.rs:158-160 | ascending, without duplicates, exactly the processes with a count |
| LinuxProvider.Provider.CorrelateFence | src/providers/linux.rs:176-195 | queues and returns the fence's record with its energy, decrements its process and drops it at zero |
| LinuxProvider.Provider.ReadRaplPower | src/providers/linux.rs:205-265 | power from the wrapped counter difference, cached wrap point, state untouched on an unreadable counter |
| LinuxProvider.Provider.SamplePowerState | src/providers/linux.rs:274-296 | the snapshot of a reading, all of it CPU power above a zero idle baseline, or an error and an unchanged state |
| LinuxProvider.Provider.SyncRegistry | src/providers/linux.rs:313-334 | empties the queue into the registry, in order |
| RaplRun.DecodeModulo | src/providers/linux.rs:229-246 | a decoded delta is the accumulator's advance modulo the counter range, and no saturating step saturates |
| RaplRun.DecodeExact | src/providers/linux.rs:229-246 | decoding is exact if and only if the advance is at most the counter range |
| RaplRun.DecodeNeverOverReports | src/providers/linux.rs:216-246 | decoding never exceeds the advance, with the wrap point known or missing and any number of wraps |
| RaplRun.DecodeWithoutRange | src/providers/linux.rs:229-237 | without a wrap point decoding is exact if and only if both readings are in the same lap, and a backward counter counts as nothing |
| RaplRun.FirstReadingSeeds | src/providers/linux.rs:255-257 | the first successful reading gives no power whatever the counter shows |
| RaplRun.DecodedSum | src/providers/linux.rs:229-246 | decoded deltas of a run add up to the total advance over any number of wraps |
| RaplRun.ClocksCoupled | src/core/provider.rs:173-193 | whenever the loop holds a snapshot its timestamp is the provider's and the provider holds the reading it came from |
| RaplRun.RaplNeverOverReports | src/providers/linux.rs:205-296 | over any run with errors, wraps and backward clocks the registry receives at most the true advance over adjacent successful readings |
| RaplRun.RaplLosesLittle | src/providers/linux.rs:205-296 | in ordinary operation it receives all of it but at most one micro-joule per adjacent pair |
| Metering.RunWithinMeter | src/core/provider.rs:167-238 | pairwise bounds against a meter carry over to the registry total of a whole run |
| Metering.PairNetOfBaseline | src/core/provider.rs:189-193 | what a pair pushes and its idle energy together stay within the metered energy, and in the exact range they miss it by less than a micro-joule and the rounding of the power |
| WindowsProvider.Provider.SampleWindowEnergy | src/providers/windows.rs:289-333 | splits power times time exactly over the processes into registry and result; errors, idle GPU and zero windows change nothing |
| WindowsProvider.Provider.ShareOut | src/providers/windows.rs:308-327 | the remainder loop produces the specified entries and records |
| WindowsProvider.Provider.AttributeWindow | src/providers/windows.rs:343-396 | gives every process in list order its deterministic slice of the power above idle, records it and updates the busy state |
| WindowsProvider.SlicesBounded | src/providers/windows.rs:361-390 | the total handed out by attribute_window is bounded on both sides by the energy of total minus idle power over the window |
| WindowsProvider.Provider.SyncRegistry | src/providers/windows.rs:500-511 | empties the queue into the registry, in order |
| AppleSilicon.Provider.SamplePowerState | src/providers/apple_silicon.rs:346-409 | sums the channels, converts over the provider's own gap, stamps the time and the idle baseline, all as accelerator power; nothing on the first sample; the asserted energy relation holds without its slack |
| AppleSilicon.Provider.SyncRegistry | src/providers/apple_silicon.rs:431-448 | empties the queue into the registry, in order |
| AppleSilicon.AppleNeverOverReports | src/providers/apple_silicon.rs:346-409 | over any run the registry receives at most the metered energy of adjacent successful samples, whatever the idle baseline and clock |
| AppleSilicon.AppleNetOfBaseline | src/providers/apple_silicon.rs:346-409 | over any run what the registry receives and the idle energy over the same gaps together stay within the metered energy |
| StableSort.SortIsStable | src/core/signer.rs:154-159 | sorting is sorted and keeps every group of ties in order |
| StableSort.StableSortUnique | src/core/signer.rs:154-159 | there is only one stable sort, so the algorithm does not matter |
| StableSort.SortEqualIffTiesAlike | src/core/signer.rs:151-159 | two inputs sort alike if and only if they order their ties alike |
| StableSort.OrderIndependentIff | src/core/signer.rs:131-159 | a list sorts alike in every order if and only if elements that compare equal are equal |
| Json.CanonicalizeValue | src/core/signer.rs:197-211 | sort then insert the canonical children computes the canonical form |
| Json.CanonDecidesSame | src/core/signer.rs:197-211 | two values with distinct keys are equal as data, at all depths, if and only if their canonical forms are identical |
| Json.CanonIsCanonical | src/core/signer.rs:197-211 | the canonical form has its keys in order at every depth |
| Json.CanonicalKeysAscend | src/core/signer.rs:197-206 | of two keys of a canonical object the earlier is a prefix of the later or has the lower character where they part |
| Json.CanonIdempotent | src/core/signer.rs:197-211 | canonicalizing twice changes nothing |
| Json.LookupPreserved | src/core/signer.rs:197-211 | every key finds its canonicalized value |
| JsonText.RoundTrip | src/core/signer.rs:191-195 | a parser undoes the compact printer with RFC 8259 escaping, for every value and whatever follows the text that does not start with a digit |
| JsonText.PrintInjective | src/core/signer.rs:191-195 | the compact text determines the value |
| JsonText.NoLeadingZero | src/core/signer.rs:191-195 | numbers are printed without leading zeros |
| JsonText.PrintIsCompact | src/core/signer.rs:182-195 | the text has no white space outside strings and no control characters |
| JsonText.StringExample | src/core/signer.rs:191-195 | the literal text of a string with a quote, a line feed, a control character and a slash |
| JsonText.ObjectExample | src/core/signer.rs:191-195 | the literal text of an object |
| JsonText.ArrayExample | src/core/signer.rs:191-195 | the literal text of an array |
| Utf8.EncodeCharLayout | src/core/signer.rs:191-195 | lead and continuation bytes of every character follow the table of RFC 3629, with no overlong form |
| Utf8.EncodeInjective | src/core/signer.rs:191-195 | the bytes determine the text |
| Seal.CanonicalJsonReads | src/core/signer.rs:161-195 | the signed bytes are the text of an object in which a parser finds every payload, identity and attribution datum under its own key, with each source name as a literal |
| Seal.CanonicalJsonInjective | src/core/signer.rs:182-195 | the canonical bytes determine every field of a payload |
| Seal.FreshSealVerifies | src/core/signer.rs:136-179 | every freshly produced seal verifies |
| Seal.VerifiedIff | src/core/signer.rs:58-79 | a seal verifies if and only if its key is accepted, its signature has 64 bytes, its bytes are those of its payload and the signature checks over them |
| Seal.ForgeryRejected | src/core/signer.rs:58-79 | with another signature or key a verified seal passes if and only if the scheme accepts it over the payload's bytes |
| Seal.ResealedNeedsSignature | src/core/signer.rs:58-79 | changing payload and bytes together needs a signature over different bytes |
| Seal.TamperedPayloadRejected | src/core/signer.rs:58-79 | a verified seal with its payload replaced is rejected by the re-derivation check if and only if the payload differs in some field |
| Seal.VerifiedBytesFixPayload | src/core/signer.rs:58-79 | verified seals with equal canonical bytes carry equal payloads |
| Seal.SealBytesEqualIff | src/core/signer.rs:131-170 | two orders of attributions seal to the same bytes if and only if they order each (pid, start, end) group alike |
| Seal.SealOrderIndependentIff | src/core/signer.rs:131-159 | the sealed sequence is independent of the input order if and only if tied records are identical |
| Seal.SealOrderCounterexample | src/core/signer.rs:131-159 | two records of one window with different energies seal to different bytes when swapped |
| Seal.SealedAscending | src/core/signer.rs:154-159 | the sealed records are the given ones, ascending by process, window start and window end |
| Seal.SortAttributions | src/core/signer.rs:151-159 | the in-place sort leaves the stable sort of the vector: a permutation, ascending by process, window start and window end |
| Seal.MakeSeal | src/core/signer.rs:136-179 | the seal over the ascending attributions and the caller's other data, which verifies under a correct signature scheme |

## Left out

- FFI to NVML, IOReport, CoreFoundation and IOKit, and the NVML buffer-growing loop: their answers are inputs.
- Hardware probing (src/core/hardware.rs): only the identity record and its source names enter, through the payload.
- Ed25519 internals, key storage and unforgeability: the scheme is a parameter of which only correctness is assumed.
- tokio timing, logging, wall-clock reads, memory orderings and skip-list internals.
- Racing snapshots and totals while a removal runs: the exact conditions are for walks without removals; with them the walk is only bounded from above. The source calls the registry append-only (src/core/registry.rs:11).
- Agreement of a seal's total with its attributions: the total is the caller's and is not checked by the code.
- Full RFC 8785 conformance and floating-point JSON numbers: payloads hold only integers and strings.
- Order of UTF-8 bytes against Unicode scalars: keys are compared by scalar value, which RFC 3629 states to be the same order.
- Json.CanonicalizeValue: inserting into the result map is modelled as appending, which is what it does for distinct keys.
- The Windows `sample_power_state`, `baseline_burst`, constructors, accessors, `EnergyManifest` and the channel-name classifier, which would only add easy members.
