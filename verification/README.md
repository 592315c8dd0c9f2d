# Hitz: a verified model

Hitz is a micro-VM monitor: a daemon keeps a map of VMs and their state on disk, each running VM
is a task that boots a Linux kernel and drives its vCPUs, and small device models serve the guest.
This project models the parts of it that carry state machines, concurrency, indexes and byte-level
encodings, and proves what they guarantee. `dafny verify dfyconfig.toml` checks all of it.

One module per component:

- `VmStore`, `VmManager`: the persistent store and the VM manager, as classes. What each manager
  operation does under the lock is a function; the methods combine these with store writes.
- `VmProtocol`, `VmDisk`, `VmWait`, `VmRaces`: the manager as a protocol. A step is one lock
  section, one store write outside the lock, the exit update of a VM task, its completion message,
  or one receive. Theorems are about every state of every interleaving; `VmRaces` holds the runs
  that show which premises are needed.
- `SerialBuf`, `SerialWake`: the serial ring as a refinement of an append-only log, and the
  version-counter wake-up between writers, closers and readers.
- `RunLoop`, `VcpuShutdown`: the run loop with its deferred-interrupt slot, on any script of exits
  and failures; and multi-vCPU shutdown with N threads, watchdog, collector and latched cancels.
- `MmioDecode`, `MmioForms`, `MmioExec`: the MMIO instruction decoder, the MOV instructions by
  addressing form with literal bytes (Intel SDM Vol. 2A, sections 2.1 and 2.2.1), and the emulation
  against the instruction's effect.
- `GuestMem`, `WriteLog`: guest memory as sorted regions over byte arrays, and as a log of writes.
- `PageTables`, `ElfLoader`, `BootImage`: page tables against a 4-level walk (Intel SDM Vol. 3A,
  section 4.5), the ELF loader, and the memory image of the whole boot sequence.
- `Cpio`, `MmioBus`, `VirtioNet`: the cpio builder against a parser of the newc format, the device
  index against a linear scan, and the network queues (virtio 1.1, section 5.1.6).
- `Bytes`: bytes, little-endian numbers and results, used throughout.

## Where the code falls short of its intent

The model follows the code. Each of these is a theorem, with the exact condition where there is one.

- `start_vm` accepts only a created VM, although the API description speaks of stopped VMs too; so
  `restart_vm` fails on every entry that stays in the map, and succeeds exactly when a recreated VM
  is found in time (`VmProtocol.RestartInRun`, `VmRaces.RestartOfRecreatedVm`).
- A failed save in `start_vm` leaves a VM that is running for ever, with no task; it is the only
  step that does, whatever other store calls fail (`VmProtocol.OwnerlessBeginsIff`,
  `VmProtocol.NeverAbandoned`, `VmProtocol.AbandonedForEver`, `VmRaces.FailedStartAbandons`).
- Store writes of one VM can overtake each other: a start during a creation, a late erase, or a
  final save after a deletion leave disk and map apart (`VmRaces.CreateStartRace`,
  `VmRaces.LateEraseLosesVm`, `VmRaces.ExitSaveAfterDelete`).
- Recovery does not rewrite the disk: a manager starts in step with it exactly when every record is
  complete and not running (`VmDisk.StartsSyncedIffSettled`).
- A completion left in the channel lets `stop_all_and_wait` return while a counted VM still runs
  (`VmRaces.StaleCompletionEndsWait`).
- The collector's three-second deadline is counted from the spawn and stops healthy multi-vCPU
  machines: the flag goes up exactly when somebody asked or that deadline passed
  (`VcpuShutdown.StopHasACause`, with `VcpuShutdown.DeadlineStopsHealthyMachine` as the witness).
- A second deferred interrupt overwrites the first; nothing is lost exactly when no vector is
  deferred over a pending one (`RunLoop.NothingLostIff`, `RunLoop.DoubleDeferralLosesAVector`).
- Narrow loads, AH..BH, sign-extended immediates and stray REX bytes are emulated wrongly; all
  other supported forms are right (`MmioExec.EmulatesMovIff`).
- More than 22 GiB of RAM makes the page tables collide with the command line
  (`BootImage.TablesIntactIff`), and more than 3328 MiB covers the device windows
  (`BootImage.DevicesReachableIff`); configuration validation accepts both.
- A zero-size device registered at an occupied base hides the device there
  (`MmioBus.RegistrationShadowsIff`).

## Model

| member | source | states |
|---|---|---|
| `VmStore.StateStore.SaveConfig` | crates/hitz-daemon/src/state_store.rs:32-39 | the config of one id is replaced and its state file kept; no other id changes, failure or not |
| `VmStore.StateStore.SaveState` | crates/hitz-daemon/src/state_store.rs:44-58 | the state of one id is replaced and its config kept; no other id changes, failure or not |
| `VmStore.StateStore.Delete` | crates/hitz-daemon/src/state_store.rs:61-67 | the directory of one id goes, also when it was not there; no other id changes |
| `VmStore.StateStore.LoadAll` | crates/hitz-daemon/src/state_store.rs:75-127 | in any visiting order, returns each recoverable VM once and nothing else: no config means skipped, no state file created, running stopped, any other state as it is |
| `VmManager.SyncedRecovers` | crates/hitz-daemon/src/vm_manager.rs:132-153 | recovering a disk that equals the map gives the map back with running VMs stopped |
| `VmManager.Manager.constructor` | crates/hitz-daemon/src/vm_manager.rs:132-173 | the map of a new manager is exactly what the disk recovers, nothing running and no stop flag |
| `VmManager.Manager.CreateVm` | crates/hitz-daemon/src/vm_manager.rs:276-321 | succeeds iff the id is safe and new, the config valid and both saves work, and then adds a created entry without flag or reason; a failure restores the map and says why; success keeps disk and map equal |
| `VmManager.SafeIffNotForbidden` | crates/hitz-daemon/src/vm_manager.rs:277-279 | an id is refused iff it has the form x/y, x\y or x..y |
| `VmManager.Manager.CloneVm` | crates/hitz-daemon/src/vm_manager.rs:197-209 | creates with the source VM's config, or leaves the map alone |
| `VmManager.Manager.StartVm` | crates/hitz-daemon/src/vm_manager.rs:347-377 | only a created VM starts: its entry becomes running with a lowered flag and nothing else changes, also if the save fails; any other state is the error; success keeps disk and map equal |
| `VmManager.Manager.FinishVm` | crates/hitz-daemon/src/vm_manager.rs:457-494 | an entry still there becomes stopped after halt, shutdown and cancel and failed otherwise, with its reason spelled out and no flag, in the map and on disk; no other entry changes; one completion in every case |
| `VmManager.Manager.StopVm` | crates/hitz-daemon/src/vm_manager.rs:521-545 | succeeds iff the VM is running, and raises its flag and changes nothing else; otherwise the error names the state |
| `VmManager.Manager.DeleteVm` | crates/hitz-daemon/src/vm_manager.rs:691-712 | refused iff missing or running; else the entry goes whatever the store says, and success keeps disk and map equal |
| `VmManager.Manager.FlagRunning` | crates/hitz-daemon/src/vm_manager.rs:777-790 | flags every running VM, no other, and returns how many there are |
| `VmManager.Manager.AwaitCompletions` | crates/hitz-daemon/src/vm_manager.rs:798-816 | with messages arriving at every wait: what it took and what is left are the queue and the arrivals in order, and it ends with the count reached, nothing left, or the deadline passed |
| `VmManager.RestartVm` | crates/hitz-daemon/src/vm_manager.rs:548-568 | succeeds iff the stop is accepted, some poll of at most 50 is the first to find the VM ended, none before it misses the VM, and the start then finds it created; otherwise says which of these failed |
| `VmProtocol.RunningIffFlag` | crates/hitz-daemon/src/vm_manager.rs:347-490 | in every reachable state, store failures included, a VM is running iff it has a stop flag |
| `VmProtocol.RankNeverFalls` | crates/hitz-daemon/src/vm_manager.rs:276-490 | while an id stays in the map its rank created < running < ended never falls and its config never changes |
| `VmProtocol.StopRequestSticks` | crates/hitz-daemon/src/vm_manager.rs:521-545 | a raised stop flag stays up in every later state in which the VM still runs |
| `VmProtocol.StopRequestArrives` | crates/hitz-daemon/src/vm_manager.rs:521-817 | after a stop of this VM or of all, the flag is up in every later state in which it still runs |
| `VmProtocol.FailedCreateRollsBack` | crates/hitz-daemon/src/vm_manager.rs:309-319 | a creation whose first or second save fails removes its entry and no other |
| `VmProtocol.ExitOfRemovedVm` | crates/hitz-daemon/src/vm_manager.rs:457-494 | a VM task whose entry is gone writes nothing and still reports |
| `VmProtocol.TaskReports` | crates/hitz-daemon/src/vm_manager.rs:457-494 | in every run, whatever fails, a started task that is gone has sent its completion |
| `VmProtocol.StartNeedsRecreation` | crates/hitz-daemon/src/vm_manager.rs:347-373 | a VM once past created starts again only if its id was out of the map in between |
| `VmProtocol.RestartInRun` | crates/hitz-daemon/src/vm_manager.rs:548-568 | in any run a restart reaches running iff the maps it finds are as above; then the id was out of the map between its last poll and its start, so on an entry that stays it always fails |
| `VmProtocol.FailedSaveAbandons` | crates/hitz-daemon/src/vm_manager.rs:377-377 | a failed save after the start section leaves the VM running with no start, task or creation behind it |
| `VmProtocol.OwnerlessBeginsIff` | crates/hitz-daemon/src/vm_manager.rs:347-494 | a step leaves a running VM without start and task iff it is the failed save of its only start |
| `VmProtocol.OwnerlessOnlyByFailedStart` | crates/hitz-daemon/src/vm_manager.rs:276-712 | in every run, any store call failing, a VM runs with nothing behind it only after such a failed save of its own |
| `VmProtocol.NeverAbandoned` | crates/hitz-daemon/src/vm_manager.rs:276-712 | without a failed save in a start no VM is ever abandoned, whatever else fails |
| `VmProtocol.AbandonedForEver` | crates/hitz-daemon/src/vm_manager.rs:347-705 | such a VM stays running in every later state: nothing stops, deletes, restarts or removes it |
| `VmProtocol.RunKeepsAccounts` | crates/hitz-daemon/src/vm_manager.rs:347-498 | without store failures, a VM is running iff exactly one start in progress or task before its exit update is its own |
| `VmProtocol.ExitStaysReported` | crates/hitz-daemon/src/vm_manager.rs:457-480 | without store failures a VM that exits shows how it ended, stopped or failed with its reason, for as long as its id stays in the map |
| `VmDisk.RunKeepsFit` | crates/hitz-daemon/src/vm_manager.rs:276-498 | without store failures and overlapping writes, in every state each id agrees on disk and in the map, or the disk holds what the one pending write expects |
| `VmDisk.QuiescentDiskIsMap` | crates/hitz-daemon/src/vm_manager.rs:276-712 | at every quiescent point recovery yields the map with running VMs stopped, and from a settled disk, disk and map hold the same ids, configs and states |
| `VmDisk.ExitIsRecorded` | crates/hitz-daemon/src/vm_manager.rs:457-489 | at every later quiescent point the disk records how the VM ended: stopped after halt, shutdown or cancel, failed otherwise |
| `VmDisk.CrashRecoversBeforeOrAfter` | crates/hitz-daemon/src/state_store.rs:32-127 | a crash at any moment of an operation recovers its VM as it was before the operation or as it is in the map now |
| `VmDisk.StartsSyncedIffSettled` | crates/hitz-daemon/src/vm_manager.rs:132-153 | a new manager's map equals its disk iff every record is complete and not running |
| `VmWait.WaitMeansFinished` | crates/hitz-daemon/src/vm_manager.rs:777-817 | a full count means exactly count minus stale messages came from counted VMs, at most that many stale counted VMs are unfinished, and with none stale every running VM was started later |
| `VmWait.CountIsOwners` | crates/hitz-daemon/src/vm_manager.rs:777-790 | without store failures the running VMs counted are as many as the starts and tasks that owe a completion |
| `VmWait.StaleOrigin` | crates/hitz-daemon/src/vm_manager.rs:457-494 | a stale message was queued at the count, owed by a task past its exit update then, or comes from a VM started later |
| `VmWait.WaitBound` | crates/hitz-daemon/src/vm_manager.rs:777-817 | a full count leaves at most as many counted VMs unfinished as messages were queued at the count, tasks were past their exit update, and operations began since; none if all are zero |
| `VmRaces.CreateStartRace` | crates/hitz-daemon/src/vm_manager.rs:304-377 | for every safe id, some failure-free run ends quiescent with the VM running and recorded as created |
| `VmRaces.LateEraseLosesVm` | crates/hitz-daemon/src/vm_manager.rs:707-711 | some failure-free run ends quiescent with a created VM that is not on disk |
| `VmRaces.ExitSaveAfterDelete` | crates/hitz-daemon/src/vm_manager.rs:485-489 | some failure-free run ends quiescent with a directory for a deleted VM |
| `VmRaces.FailedStartAbandons` | crates/hitz-daemon/src/vm_manager.rs:361-377 | an abandoned VM is reachable from any created one |
| `VmRaces.StaleCompletionEndsWait` | crates/hitz-daemon/src/vm_manager.rs:798-805 | some failure-free run fills the count of a wait while its counted VM still runs |
| `VmRaces.RestartOfRecreatedVm` | crates/hitz-daemon/src/vm_manager.rs:548-568 | for every safe id, a failure-free run in which a restart succeeds, its VM deleted and created again between poll and start |
| `SerialBuf.RingBuffer.constructor` | crates/hitz-vmm/src/serial_buf.rs:94-108 | a new ring of any positive capacity holds the empty log |
| `SerialBuf.RingBuffer.Write` | crates/hitz-vmm/src/serial_buf.rs:161-198 | for data of any length the log grows by exactly the data, and the ring still holds the last min(total, capacity) bytes of it |
| `SerialBuf.RingBuffer.Close` | crates/hitz-vmm/src/serial_buf.rs:133-144 | marks the ring closed and keeps its contents |
| `SerialBuf.SerialReader.constructor` | crates/hitz-vmm/src/serial_buf.rs:117-127 | a reader starts at the end of the log |
| `SerialBuf.SerialReader.ReadChunk` | crates/hitz-vmm/src/serial_buf.rs:221-261 | returns the last min(unread, capacity) bytes of the log, byte for byte, and catches up; otherwise ends if closed and parks if not |
| `SerialBuf.LaidHolds` | crates/hitz-vmm/src/serial_buf.rs:165-190 | laying the kept tail of the data over the ring at the write position makes it hold the longer log |
| `SerialBuf.UnreadSlots` | crates/hitz-vmm/src/serial_buf.rs:236-255 | the wrapped slots from the reader's position on are the unread part of the log |
| `SerialWake.NoLostWakeup` | crates/hitz-vmm/src/serial_buf.rs:194-273 | a reader parked with nothing new on the channel while it has work is owed a notification by some writer or closer |
| `SerialWake.WakeEnabled` | crates/hitz-vmm/src/serial_buf.rs:262-273 | once all notifications are sent, every parked reader with work can wake |
| `SerialWake.NoneOnlyWhenDrained` | crates/hitz-vmm/src/serial_buf.rs:221-273 | `None` is returned only to a reader that has drained the whole log, and only after close or the last handle |
| `SerialWake.NoneIsFinal` | crates/hitz-vmm/src/serial_buf.rs:221-273 | with no write after close, an ended reader stays drained in every later state |
| `SerialWake.CheckLoses` | crates/hitz-vmm/src/serial_buf.rs:233-255 | a read loses exactly the bytes more than a ring behind and returns all later ones |
| `SerialWake.LostIffLapped` | crates/hitz-vmm/src/serial_buf.rs:233-240 | a reader has lost bytes iff at some read the writer was more than a ring ahead of it |
| `SerialWake.CompleteIffNeverLapped` | crates/hitz-vmm/src/serial_buf.rs:221-261 | a reader's chunks concatenate to the history since its creation iff at every read the writer was at most a ring ahead, and at its `None` that is everything written |
| `RunLoop.RunVcpuLoop` | crates/hitz-vmm/src/run_loop.rs:126-157 | the loop on any script; without a hypervisor error every raised vector is injected, pending or overwritten, and no entry to `run` has a pending vector without a window |
| `RunLoop.ReturnsIff` | crates/hitz-vmm/src/run_loop.rs:126-232 | the loop returns cancelled, halted, shut down or unexpected iff a turn it reaches has a raised flag or the exit of that kind |
| `RunLoop.FailsIff` | crates/hitz-vmm/src/run_loop.rs:126-232 | it ends with a hypervisor error iff a turn it reaches has a failing call that the loop does not absorb |
| `RunLoop.InterruptsConserved` | crates/hitz-vmm/src/run_loop.rs:126-232 | conservation of raised vectors over whole runs, errors included, where at most one vector is dropped |
| `RunLoop.NothingLostIff` | crates/hitz-vmm/src/run_loop.rs:160-232 | nothing is lost iff no turn that the loop reaches defers a polled or exit vector while an earlier one is pending |
| `RunLoop.IterateOverwrites` | crates/hitz-vmm/src/run_loop.rs:140-156 | one iteration overwrites a vector iff an injection fails in it while the slot is taken |
| `RunLoop.DispatchKeeps` | crates/hitz-vmm/src/run_loop.rs:178-335 | every kind of exit keeps the accounts and the armed window |
| `RunLoop.DoubleDeferralLosesAVector` | crates/hitz-vmm/src/run_loop.rs:171-174 | a run in which the guest never sees the first of two deferred vectors |
| `VcpuShutdown.StopNeverFalls` | crates/hitz-vmm/src/vm.rs:639-748 | the stop flag never falls |
| `VcpuShutdown.OneResultAfterStop` | crates/hitz-vmm/src/vm.rs:673-712 | a thread sends exactly one result, only after the stop, and enters `run` at most once after it |
| `VcpuShutdown.NobodyStaysBlocked` | crates/hitz-vmm/src/vm.rs:649-661 | a thread in `run` whose cancel was issued can leave it |
| `VcpuShutdown.SweepCancelsAll` | crates/hitz-vmm/src/vm.rs:282-286 | a finished sweep, by watchdog or thread, has cancelled every thread |
| `VcpuShutdown.FinalIsFirstReal` | crates/hitz-vmm/src/vm.rs:717-739 | the final reason is that of the first received result that is not a cancellation, an error counting as unexpected, and a cancellation if there is none |
| `VcpuShutdown.CollectReasons` | crates/hitz-vmm/src/vm.rs:720-739 | the collector's loop reports the first result in time that is not a cancellation, an error as unexpected |
| `VcpuShutdown.CollectsAll` | crates/hitz-vmm/src/vm.rs:720-739 | unless its deadline passes, the collector takes every thread's result before it goes on |
| `VcpuShutdown.ShutdownIsBounded` | crates/hitz-vmm/src/vm.rs:639-748 | after the stop every interleaving has a bounded number of steps left |
| `VcpuShutdown.ShutdownNeverStuck` | crates/hitz-vmm/src/vm.rs:639-748 | after the stop, until the collector returns, some step other than its timeout is possible |
| `VcpuShutdown.StopHasACause` | crates/hitz-vmm/src/vm.rs:639-748 | in every run the flag is up iff it was raised from outside or by a thread that ended, or the collector's deadline passed and the collector raised it |
| `VcpuShutdown.StoppedIffAsked` | crates/hitz-vmm/src/vm.rs:639-748 | as long as the deadline has not passed, a machine is stopped iff somebody asked |
| `VcpuShutdown.DeadlineStopsHealthyMachine` | crates/hitz-vmm/src/vm.rs:717-741 | a run in which the deadline alone stops a machine none of whose threads asked |
| `MmioDecode.DecodeMmioInstruction` | crates/hitz-vmm/src/mmio_decode.rs:74-110 | the decoder computes `Decode`, about which the next rows speak |
| `MmioDecode.ParsePrefixes` | crates/hitz-vmm/src/mmio_decode.rs:113-131 | consumes the longest run of prefixes and reports the 0x66 and the last REX byte in it |
| `MmioDecode.ParseSibAndDisp` | crates/hitz-vmm/src/mmio_decode.rs:134-156 | advances past SIB and displacement, or fails exactly when bytes run out |
| `MmioDecode.DecodesIffStartsWithInsn` | crates/hitz-vmm/src/mmio_decode.rs:74-261 | bytes decode iff a supported MOV stands complete at their front |
| `MmioDecode.RoundTrip` | crates/hitz-vmm/src/mmio_decode.rs:74-261 | every supported MOV followed by any tail decodes to its register, size, immediate and exact length |
| `MmioDecode.TruncationUndecodable` | crates/hitz-vmm/src/mmio_decode.rs:74-261 | no strict truncation of an encoding decodes |
| `MmioDecode.PrefixFree` | crates/hitz-vmm/src/mmio_decode.rs:74-261 | an encoding that is a prefix of another is the same instruction |
| `MmioForms.FormDecodes` | crates/hitz-vmm/src/mmio_decode.rs:74-261 | every MOV form, with literal opcodes, mod bits and displacements and any prefix list, followed by any tail, decodes to its register, width, immediate and length |
| `MmioForms.DecodesIffForm` | crates/hitz-vmm/src/mmio_decode.rs:74-261 | the decoder gives an answer iff such a form stands at the front, and that form's |
| `MmioForms.UsualMovDecodes` | crates/hitz-vmm/src/mmio_decode.rs:159-186 | loads and stores of 2, 4 or 8 bytes between each of the sixteen registers and each addressing form |
| `MmioForms.MemFacts` | crates/hitz-vmm/src/mmio_decode.rs:235-261 | form by form, whether a SIB byte follows and how long the displacement is |
| `MmioExec.RegisterValue` | crates/hitz-vmm/src/mmio_decode.rs:268-288 | reads the register with that x86 number |
| `MmioExec.SetRegister` | crates/hitz-vmm/src/mmio_decode.rs:293-313 | changes exactly the register with that number |
| `MmioExec.Machine.HandleMmio` | crates/hitz-vmm/src/run_loop.rs:236-335 | the handler has the effect `Emulate` on registers and devices; undecodable bytes make no access, change no register and advance RIP by the hypervisor's length modulo 2^64 |
| `MmioExec.EmulateInsn` | crates/hitz-vmm/src/run_loop.rs:275-314 | one device access of the decoded size at the exit's address, RIP advanced once modulo 2^64, and only the target register changed |
| `MmioExec.EmulatesMovIff` | crates/hitz-vmm/src/run_loop.rs:236-335 | the emulation equals the architectural MOV on every machine state iff the instruction satisfies the stated conditions on width, registers, REX and immediate |
| `MmioExec.NotEmulatedMismatch` | crates/hitz-vmm/src/run_loop.rs:275-314 | for each instruction outside them, a machine state on which the result is wrong |
| `MmioExec.CanonicalRexInForce` | crates/hitz-vmm/src/mmio_decode.rs:113-131 | with prefixes in the usual order the decoder's REX is the architectural one |
| `GuestMem.GuestMemory.AddRegion` | crates/hitz-vmm/src/memory.rs:131-185 | accepted iff sizes do not overflow, the range is free and the allocation works; keeps regions sorted and disjoint, the new one zeroed; an error changes nothing and says why |
| `GuestMem.GuestMemory.FindRegion` | crates/hitz-vmm/src/memory.rs:211-254 | the binary search returns region and offset, or the error, of a linear scan |
| `GuestMem.GuestMemory.WriteSlice` | crates/hitz-vmm/src/memory.rs:271-293 | the memory after a write is the specified one, or unchanged with the specified error |
| `GuestMem.GuestMemory.ReadSlice` | crates/hitz-vmm/src/memory.rs:297-308 | returns the bytes of the one region the access lies in, or its error |
| `GuestMem.GuestMemory.WriteZeroes` | crates/hitz-vmm/src/memory.rs:368-384 | on success one fill of the range; on failure a zeroed prefix of whole 4096-byte chunks up to the first chunk outside a region |
| `GuestMem.LocateIffInside` | crates/hitz-vmm/src/memory.rs:211-254 | an access resolves iff it lies inside one region |
| `GuestMem.LocateErrors` | crates/hitz-vmm/src/memory.rs:211-254 | not mapped iff no region contains the address and nothing overflows, otherwise out of bounds, and where a successful access lands |
| `GuestMem.WriteFrames` | crates/hitz-vmm/src/memory.rs:271-293 | a write changes exactly the bytes it names |
| `GuestMem.ReadAfterWrite` | crates/hitz-vmm/src/memory.rs:271-308 | what was written is read back |
| `GuestMem.ReadIsView` | crates/hitz-vmm/src/memory.rs:297-308 | a read returns the bytes at its addresses one by one |
| `PageTables.WriteEntry` | crates/hitz-boot/src/page_tables.rs:161-164 | sets one entry and leaves the other 511 alone |
| `PageTables.BuildPageTables` | crates/hitz-boot/src/page_tables.rs:110-154 | accepted iff 1..=512 GiB; consecutive table pages with the stated entries |
| `PageTables.WalkIsIdentity` | crates/hitz-boot/src/page_tables.rs:110-164 | a page walk over the written bytes maps each address below the size to itself on a present writable 2 MiB page, and no other 48-bit address |
| `ElfLoader.LoadElf` | crates/hitz-boot/src/loader.rs:219-297 | succeeds iff the image is sound and memory accepts every segment; then has made exactly the segments' writes and reports least start, greatest end and entry |
| `ElfLoader.MinStart` | crates/hitz-boot/src/loader.rs:273-282 | the least segment start |
| `ElfLoader.MaxEnd` | crates/hitz-boot/src/loader.rs:273-282 | the greatest segment end |
| `ElfLoader.LoadsAreThePtLoads` | crates/hitz-boot/src/loader.rs:219-272 | for any program headers an image holds, wherever its table is and whatever its entry size, it asks for exactly the PT_LOAD ones in order; refused iff one fails its range check or there is none |
| `ElfLoader.CutTableRefused` | crates/hitz-boot/src/loader.rs:144-157 | an image with a program header past the end of the file is refused |
| `ElfLoader.OnlyElfIsLoaded` | crates/hitz-boot/src/loader.rs:104-141 | nothing but a 64-bit little-endian x86-64 ELF image is loaded |
| `ElfLoader.ImageLoads` | crates/hitz-boot/src/loader.rs:219-297 | for every list of program headers and bytes there is an image, and it asks for the PT_LOAD ones |
| `ElfLoader.SegmentImageLoads` | crates/hitz-boot/src/loader.rs:340-402 | for all contents, an image laid out with one PT_LOAD header asks for exactly that segment and entry |
| `ElfLoader.ElfFootprint` | crates/hitz-boot/src/loader.rs:219-297 | the loader touches an address iff some segment covers it |
| `ElfLoader.SegmentContents` | crates/hitz-boot/src/loader.rs:219-297 | with disjoint segments each holds its file bytes and then zeroes |
| `ElfLoader.LoadTwiceIsLoadOnce` | crates/hitz-vmm/src/vm.rs:416-416 | loading an image a second time changes no byte, overlapping segments included |
| `BootImage.BuildImage` | crates/hitz-vmm/src/vm.rs:394-416 | the memory half of booting succeeds iff the input is bootable; then memory is zero but for the writes of the boot log, and every area is intact in it if the input is laid out safely |
| `BootImage.LoadInitramfs` | crates/hitz-boot/src/initramfs.rs:84-113 | accepted iff non-empty, inside RAM after the page-aligned kernel end, and within 32 bits; then exactly that write |
| `BootImage.WriteLowAreas` | crates/hitz-vmm/src/vm.rs:488-553 | boot_params at 0x7000, RSDP, XSDT and MADT at 0xE0000, 0xE1000 and 0xE2000, boot_params again, command line at 0x20000 and five GDT entries from 0x500, in this order; fails iff the command line leaves RAM |
| `BootImage.EverythingIntact` | crates/hitz-vmm/src/vm.rs:394-553 | after the whole sequence page tables, kernel, initramfs and, each by name at its address, boot_params, ACPI tables, command line and GDT are intact at once, for at most 22 GiB, a kernel from 1 MiB up and a command line below 0xE0000 |
| `BootImage.BootedAreasIntact` | crates/hitz-vmm/src/vm.rs:394-553 | the finished memory holds each of these byte strings from its own address on |
| `BootImage.BootedKernel` | crates/hitz-vmm/src/vm.rs:416-416 | and each kernel segment's file bytes and then zeroes |
| `BootImage.TablesIntactIff` | crates/hitz-vmm/src/vm.rs:394-395 | the page tables survive iff RAM is at most 22 GiB |
| `BootImage.KernelByte` | crates/hitz-vmm/src/vm.rs:416-416 | the second load has the last word, so the kernel image is whole in any case |
| `BootImage.BootedWalkIsIdentity` | crates/hitz-vmm/src/vm.rs:394-416 | in the finished image the page walk is the identity below the RAM size in GiB and maps nothing else |
| `BootImage.BootedWalkCoversRam` | crates/hitz-vmm/src/vm.rs:394-395 | an address is mapped, to itself, iff it is in the first GiB or in one that starts below the end of RAM |
| `BootImage.SmallMachine` | crates/hitz-vmm/src/vm.rs:455-505 | a machine with any small kernel boots iff it has 2 MiB to 512 GiB, and is laid out safely iff at most 22 GiB |
| `BootImage.DevicesReachableIff` | crates/hitz-vmm/src/vm.rs:36-38 | the device windows are outside RAM iff RAM is at most 3328 MiB |
| `Cpio.CpioBuilder.AppendEntry` | crates/hitz-boot/src/cpio.rs:93-141 | appends one entry with the current inode and advances it |
| `Cpio.CpioBuilder.AddFile` | crates/hitz-boot/src/cpio.rs:76-79 | the data is always the entries of the files added so far, inodes counted from 1 |
| `Cpio.CpioBuilder.Finish` | crates/hitz-boot/src/cpio.rs:88-91 | returns the archive of the files added |
| `Cpio.ArchiveRoundTrip` | crates/hitz-boot/src/cpio.rs:76-141 | parsing a finished archive and any parseable tail gives the files in order, then those of the tail |
| `Cpio.AllRecoveredIff` | crates/hitz-boot/src/cpio.rs:76-141 | every file comes back, in order, with content, masked mode and consecutive inode, iff none is named TRAILER!!! |
| `Cpio.EntryRecoveredIff` | crates/hitz-boot/src/cpio.rs:93-141 | an entry is recovered iff its sizes fit the 32-bit header fields |
| `Cpio.EntryHeader` | crates/hitz-boot/src/cpio.rs:105-122 | every entry starts with 070701 and the thirteen header numbers in lower-case hexadecimal |
| `Cpio.EntryAligned` | crates/hitz-boot/src/cpio.rs:127-140 | every entry is a multiple of four bytes long |
| `Cpio.ArchiveAligned` | crates/hitz-boot/src/cpio.rs:88-141 | every archive ends on a 4-byte boundary |
| `Cpio.ArchivesConcatenate` | crates/hitz-boot/src/cpio.rs:76-141 | concatenated archives parse to the concatenated file lists |
| `MmioBus.Bus.Register` | crates/hitz-devices/src/mmio_bus.rs:92-110 | accepted iff it overlaps no slot; slots stay sorted and disjoint and gain exactly this one |
| `MmioBus.OverlapsIff` | crates/hitz-devices/src/mmio_bus.rs:92-102 | two slots are refused together iff they share an address or one is empty inside the other |
| `MmioBus.Bus.FindSlot` | crates/hitz-devices/src/mmio_bus.rs:113-126 | the bisection returns the slot of a linear scan unless a slot is shadowed |
| `MmioBus.Bus.Route` | crates/hitz-devices/src/mmio_bus.rs:129-148 | for any registered slots, an access goes to the device whose visible slot contains the address, at its offset, and to none iff there is no such slot |
| `MmioBus.LookupAgreesIffNotShadowed` | crates/hitz-devices/src/mmio_bus.rs:113-126 | for every address the index agrees with the scan iff no zero-size slot sits behind a proper one at the same base |
| `MmioBus.ProperSlotsAgree` | crates/hitz-devices/src/mmio_bus.rs:92-126 | with positive sizes the index is always right |
| `MmioBus.RegistrationShadowsIff` | crates/hitz-devices/src/mmio_bus.rs:92-110 | a registration shadows a slot iff it is empty and at the base of a proper slot |
| `VirtioNet.VirtioNetDevice.ProcessTx` | crates/hitz-devices/src/virtio/net.rs:102-135 | every available chain is returned once, in order, with length 0, and yields at most one frame, sent in order |
| `VirtioNet.VirtioNetDevice.GatherChain` | crates/hitz-devices/src/virtio/net.rs:105-124 | the descriptor loop computes the gathered bytes of the next three rows |
| `VirtioNet.GatherIsPrefix` | crates/hitz-devices/src/virtio/net.rs:110-124 | gathered bytes are a prefix of the readable mapped buffers' contents, at most 65536 of them |
| `VirtioNet.GatherWholeIff` | crates/hitz-devices/src/virtio/net.rs:110-124 | with mapped buffers, all of it is gathered iff it fits the cap |
| `VirtioNet.GatherSkipsUnmapped` | crates/hitz-devices/src/virtio/net.rs:110-124 | an unmapped buffer is skipped and ends nothing: with room for all, every mapped one is gathered |
| `VirtioNet.FrameTransmittedIff` | crates/hitz-devices/src/virtio/net.rs:126-131 | a header and a frame, split over mapped buffers in any way, arrive as that frame iff it is non-empty and fits |
| `VirtioNet.VirtioNetDevice.DeliverRx` | crates/hitz-devices/src/virtio/net.rs:144-187 | the oldest frame goes into the next chain, whose used length is the bytes scattered; it leaves the queue iff that is positive; host frames are conserved in order |
| `VirtioNet.VirtioNetDevice.ScatterChain` | crates/hitz-devices/src/virtio/net.rs:160-178 | guest memory changes by exactly the scatter writes, whose total length is returned |
| `VirtioNet.VirtioNetDevice.PollRx` | crates/hitz-devices/src/virtio/net.rs:215-223 | drains the channel into the pending list and delivers at most one frame; delivered, pending and queued frames remain those the host sent |
| `VirtioNet.VirtioNetDevice.HostSend` | crates/hitz-devices/src/virtio/net.rs:85-97 | a frame the host sends joins the end of the conserved order |
| `VirtioNet.ScatterIsPrefix` | crates/hitz-devices/src/virtio/net.rs:160-178 | scattered bytes are an exact prefix of 12 zeroes and the frame, and with mapped buffers as long as there is room |
| `VirtioNet.ScatterSkipsUnmapped` | crates/hitz-devices/src/virtio/net.rs:160-178 | buffers that cannot be written are skipped and cost no bytes |
| `VirtioNet.DeliveredWholeIff` | crates/hitz-devices/src/virtio/net.rs:144-187 | a frame arrives whole iff the writable buffers hold 12 bytes more than it |
| `VirtioNet.GuestReadsBack` | crates/hitz-devices/src/virtio/net.rs:160-178 | with disjoint buffers the guest reads back, buffer by buffer, what was scattered |
| `VirtioNet.ScatterFillsInOrder` | crates/hitz-devices/src/virtio/net.rs:160-178 | with mapped buffers payload byte k goes where walking the writable buffers in chain order leads |
| `VirtioNet.GuestSeesFrame` | crates/hitz-devices/src/virtio/net.rs:144-187 | with disjoint ones the guest finds there twelve zeroes and then the frame |

## Left out

- The API's analytics, metrics and formatting (crates/hitz-api), the command line, router, HTTP server, telemetry and port forwarding: easy members around floating point and I/O.
- The hypervisor (crates/hitz-whp): a vCPU is a source of exits whose calls may fail, with a window that clears when it fires and a cancel that is latched.
- The rings of a virtqueue, the virtio MMIO transport, and the block and vsock devices: a queue is a list of descriptor chains and a list of used entries; rings that overlap guest buffers are not modelled.
- The contents of ACPI tables, GDT, boot_params and the command line: byte strings of known address and length.
- Files: a write is one step that succeeds or leaves anything at its own id; distinct ids are distinct directories (the code admits ids such as "." for which this fails). Corrupt files count as missing, unreadable directory entries and timestamps are not modelled.
- Mutex poisoning, tracing, counters and wall-clock time: timeouts are steps that can happen at any time.
- Relaxed atomics are read and written in one global order.
- The serial buffer handle, vsock handle and guest agent of a VM entry; `list_vms`, `get_vm` and `serial_reader`, which only read.
- Kinds of boot errors and their messages: loading succeeds or fails.
- Overflow of 64-bit sums in `register` (base plus size), of the total bytes written to a serial buffer, of the 32-bit used length and of the cpio inode counter.
- MmioBus.Bus.Register: an overlap, on which the source panics, is a refused registration.
- GuestMem.GuestMemory.AddRegion: an empty region is refused by the allocator, as `VirtualAlloc` does; the fallback allocator of other hosts is not modelled.
- VirtioNet.VirtioNetDevice.ProcessTx: the host end of the transmit channel stays open; a frame sent after it closes is dropped.
- VmDisk.QuiescentDiskIsMap: stated for runs whose store writes for one id do not overlap; overlapping writes can still end well, so the premise is not necessary, only shown to be needed by the races.
- VcpuShutdown.NobodyStaysBlocked: enabledness, not fairness; together with the bound and the absence of deadlock every maximal run ends.
- Single-vCPU runs (`run_single_vcpu`) and `handle_io_port`, whose port semantics only read or echo.
