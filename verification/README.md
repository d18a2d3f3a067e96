# A touch joystick on an XMEGA: model and proofs

The joystick firmware samples two touch sliders and reports their positions to a USB host. It runs on
the vendor's USB device stack, whose code does the hard work: endpoint transfers cut into hardware
transfers and resumed by interrupts, a control endpoint with deferred callbacks, a decoder of control
requests, a manager of configurations that walks descriptor bytes, and page-buffered writers of
non-volatile memory. This project models those parts as they are built for this device (ATxmega256A3U,
one HID interface with IN endpoint 0x81, endpoint 0 of 8 bytes) and proves what they promise, over
every input or every run.

Where the source updates state in place, a class updates its fields in place by the same branches
(`UddEndpoint`, `ControlEndpoint`, `DeviceCore`, `Decoder`, `UsbDevice`, `HidGeneric`,
`JoystickTask`, `SleepManager`, `FlashController`, `Eeprom`). For the interrupt-driven parts each method is proved equal
to a step of a state machine, and the results are about every run of that machine:

| files | what they are about |
|---|---|
| `EndpointSteps`, `UddEndpoints` | one endpoint: its steps, and the driver that performs them |
| `EndpointCalls`, `EndpointLifecycle`, `EndpointStatuses`, `EndpointTransfers`, `EndpointOutcomes` | what each call means to its caller, jobs and callbacks, their status, the bytes of a transfer, whole transfers |
| `ControlSteps`, `UddControl` | the control endpoint: its steps, and the driver that performs them |
| `ControlStages`, `ControlCallbacks`, `ControlData`, `ControlSafety` | stalls and resets, when request callbacks are called, the data stages, and when copies stay inside the payload |
| `Descriptors`, `UdcConfiguration`, `Selections` | descriptor bytes against descriptor lists; the configuration manager; what a selection means in terms of the descriptors |
| `SetupRequests`, `SetupDecoder`, `RequestReplies`, `JoystickDevice` | a table of the requests, the decoder proved against it, each request as the host sends it with what can be read back, the descriptors of this device |
| `Enumeration` | control endpoint, decoder and device core together |
| `HidReport`, `Joystick` | the report handshake and the stream of reports |
| `SleepLocks` | the sleep manager and the locks of the USB driver |
| `NvmBytes`, `NvmFlash`, `NvmEeprom` | flash, user signature and EEPROM writes against overlays of byte sequences |
| `Arithmetic`, `Packets` | remainders, and byte sequences cut into packets |

`dafny verify dfyconfig.toml` checks everything.

## What is assumed of the hardware and the callers

- A transfer-complete event is delivered only for an endpoint that is armed (NACK0 clear), enabled and
  not stalled, and it sets NACK0. A completion that is already pending when an endpoint is aborted is
  not modelled.
- On completion of an IN transfer AUXDATA holds CNT; an OUT transfer leaves at most AUXDATA bytes in CNT.
- A SETUP packet takes the OUT buffer of the control endpoint and lifts its stall.
- Callbacks do not re-enter the driver, and the buffers of different jobs do not overlap.
- `udd_ep_abort` is not called while a `udd_ep_wait_stall_clear` job is registered:
  `EndpointLifecycle.AbortMisreadsIff` shows that this is exactly when the callback union is misread.
- Flash: loading and split writing can only clear bits, an erase-and-write replaces, and a page write
  leaves the page buffer erased. EEPROM: loads AND into the page buffer and mark the location; an
  erase-and-write touches the marked locations only and empties the buffer.
- Endpoint descriptors are not for endpoint 0 (section 9.6.6 of USB 2.0), which is the control endpoint.
- `getsetting` of a UDI reports the setting the core has selected last, also if its enable function was
  not reached (this device has setting 0 only).
- The answers of the driver to requests about an endpoint, and those of the UDI enable functions, are
  inputs of the decoder.
- Assertions of the source are compiled out in this build, so every step is defined in every state.
- Arithmetic that the source does in 16 bits is done modulo 65536.

## What turned out differently from what one would expect

- OUT transfers: `nb_trans` is 16 bits wide and is clamped only after the addition. A host that fills the
  last packet makes it wrap exactly when the size, rounded up to whole packets, reaches 65536
  (`EndpointOutcomes.OutCountsIff`). The control endpoint has the same edge at 65528 bytes
  (`ControlData.OutReceptionsSafeIff`).
- An early status stage leaves the control endpoint armed out of turn (`ControlData.TurnsIff`). The next
  packet is then copied with the old count and a payload size of 0, which leaves the payload
  (`ControlSafety.EarlyStatusWitness`). `ControlSafety.RunDataSafe` gives the exact condition over every
  run, and `ControlSafety.OutStageSafeIff` the requests it cannot happen to; this device accepts no
  others (`JoystickDevice.JoystickNeverFaults`).
- A status stage that was stalled still calls the request callback later
  (`ControlCallbacks.StalledStatusStillFires`).
- The abort callback is told the count of the hardware transfer in progress, and not the count of the job;
  that is right exactly in the first hardware transfer of the job (`EndpointTransfers.AbortTells`).
- `udd_ep_wait_stall_clear` accepts NULL by its interface description (udd.h, line 280), but the callback
  is called without a test: `EndpointLifecycle.NullIsCalledIff` says exactly when NULL is called.
- The end of a halt calls the completion callback through the wrong union member exactly if a job is in
  progress (`EndpointLifecycle.ClearHaltMisreadsIff`), which an isochronous endpoint allows
  (`EndpointLifecycle.IsochronousHaltMisreads`) and no other does (`EndpointLifecycle.HaltExclusionHolds`).
- SET_IDLE does not look at wLength, and requests of the HID class are also accepted with an endpoint as
  the recipient (`SetupRequests.SetIdleAccepted`).
- A product name that is configured but empty gives an empty reply, and what the host then sees depends on
  a flag left by the request before (`ControlData.EmptyReplyExposesStaleFlag`); this device has no such
  name (`JoystickDevice.JoystickDecisions`).
- A failed SET_CONFIGURATION leaves the new configuration number selected with some of its endpoints
  allocated, and has reset idle rate and protocol if it came to an enable function; the next reset frees
  the endpoints all the same (`UdcConfiguration.DeviceCore.SetConfiguration`).
- Writing past the end of the user signature row never ends (`NvmFlash.UserSigEndsIff`).
- A report that is aborted after it was accepted is lost until a slider moves
  (`Joystick.AbortedReportIsLost`).
- Enabling the USB driver twice leaks a sleep lock (`SleepLocks.DoubleEnableLeaks`).

## Model

| member | source | states |
|---|---|---|
| `NvmFlash.FlashController.EraseAndWriteBuffer` | JoystickImplementation/src/ASF/xmega/drivers/nvm/nvm.c:602-668 | the final flash is the old one with the written bytes overlaid (with blank check) or ANDed in (without), through whatever the page buffer held for the first page; every other byte is unchanged, whatever mix of erase-and-write and split page writes was chosen, for odd and even starts and ends; the page buffer ends erased and the loop ends |
| `NvmFlash.FoundIsHarmlessIff` | JoystickImplementation/src/ASF/xmega/drivers/nvm/nvm.c:602-668 | that is exactly the overlay if and only if no location found in the page buffer clears a bit of its page; an erased page buffer is one such case |
| `NvmFlash.FlashController.StagePage` | JoystickImplementation/src/ASF/xmega/drivers/nvm/nvm.c:617-657 | one pass over a page ANDs into the page buffer, for every position, the new byte, the old byte or 0xFF, consumes the part of the buffer that lies below the page end, and asks for an erase exactly if blank check finds a byte that is not erased |
| `NvmFlash.FlashController.WritePage` | JoystickImplementation/src/ASF/xmega/drivers/nvm/nvm.c:616-667 | one round of the outer loop leaves the page as promised and the others alone |
| `NvmFlash.FlashController.MergeWord` | JoystickImplementation/src/ASF/xmega/drivers/nvm/nvm.c:618-654 | one word of the page: both bytes staged, for odd and even starts and ends |
| `NvmFlash.StagedIsWritten` | JoystickImplementation/src/ASF/xmega/drivers/nvm/nvm.c:602-668 | what is staged and then erased-and-written, or split-written over erased cells, is the overlay; without blank check it is the AND |
| `NvmFlash.FlashController.WriteThenRead` | JoystickImplementation/src/ASF/xmega/drivers/nvm/nvm.c:494-504 | with an erased page buffer, reading back what was written with blank check returns it |
| `NvmBytes.AndOverlayIsOverlayIff` | JoystickImplementation/src/ASF/xmega/drivers/nvm/nvm.c:599-603 | a write without blank check is the overlay if and only if no bit of the buffer must go from 0 to 1 |
| `NvmBytes.AndIsMeet` | JoystickImplementation/src/ASF/xmega/drivers/nvm/nvm.c:599-603 | programming clears bits only, and exactly those that either value lacks |
| `NvmFlash.FlashController.UserSigWriteBuffer` | JoystickImplementation/src/ASF/xmega/drivers/nvm/nvm.c:539-589 | the user signature row becomes its overlay (blank check) or old AND buf inside the range and unchanged outside, again through what the page buffer held; the address is cut to 16 bits |
| `NvmFlash.UserSigEndsIff` | JoystickImplementation/src/ASF/xmega/drivers/nvm/nvm.c:547-580 | the outer loop ends if and only if nothing is to be written or the write stays inside the row |
| `NvmFlash.FlashController.CountPass` | JoystickImplementation/src/ASF/xmega/drivers/nvm/nvm.c:548-579 | one pass of the inner loop takes exactly the bytes that lie on the row, for any address and length |
| `NvmFlash.FlashController.UserSigReadBuffer` | JoystickImplementation/src/ASF/xmega/drivers/nvm/nvm.c:517-526 | the requested slice of the row |
| `NvmFlash.FlashController.UserSigWriteThenRead` | JoystickImplementation/src/ASF/xmega/drivers/nvm/nvm.c:517-589 | with an erased page buffer, a blank-checked write is read back |
| `NvmEeprom.Eeprom.EraseAndWriteBuffer` | JoystickImplementation/src/ASF/xmega/drivers/nvm/nvm.c:176-192 | the final EEPROM is the overlay of the effective bytes for any mix of the page and byte paths, NVM.CMD is preserved and the page buffer ends clean |
| `NvmEeprom.EffectiveIsBufIff` | JoystickImplementation/src/ASF/xmega/drivers/nvm/nvm.c:176-192 | the effective bytes are the buffer if and only if the write does not start with a full page or no location found loaded clears a bit of that page; a clean page buffer is one such case |
| `NvmEeprom.Eeprom.WriteRound` | JoystickImplementation/src/ASF/xmega/drivers/nvm/nvm.c:178-190 | the state at the loop head: what is written so far is the overlay, and after the first round the page buffer is clean |
| `NvmEeprom.Eeprom.WriteByte` | JoystickImplementation/src/ASF/xmega/drivers/nvm/nvm.c:142-166 | changes exactly EEPROM[address] although the load truncates the address to 8 bits, leaves the page buffer clean and restores NVM.CMD |
| `NvmEeprom.Eeprom.AtomicWritePage` | JoystickImplementation/src/ASF/xmega/drivers/nvm/nvm.c:285-302 | erase-and-write of a page: the loaded locations are replaced, the others keep their value, the buffer is empty afterwards |
| `NvmEeprom.Eeprom.FlushBuffer` | JoystickImplementation/src/ASF/xmega/drivers/nvm/nvm.c:205-218 | the page buffer is empty afterwards and the EEPROM unchanged |
| `NvmEeprom.Eeprom.WriteThenRead` | JoystickImplementation/src/ASF/xmega/drivers/nvm/nvm.c:123-192 | with a clean page buffer, reading back what was written returns it |
| `UddEndpoints.UddEndpoint.Alloc` | JoystickImplementation/src/ASF/xmega/drivers/usb/usb_device.c:585-606 | the step EndpointSteps.Alloc, which keeps the endpoint valid (as the steps below do for callers that are fair: jobs and callbacks agree, the job in progress is on its way, and every job that has ended has moved the bytes it should); true exactly for a disabled endpoint |
| `UddEndpoints.UddEndpoint.Free` | JoystickImplementation/src/ASF/xmega/drivers/usb/usb_device.c:608-616 | the step EndpointSteps.Free; it keeps the endpoint valid |
| `UddEndpoints.UddEndpoint.SetHalt` | JoystickImplementation/src/ASF/xmega/drivers/usb/usb_device.c:627-637 | the step EndpointSteps.SetHalt: the endpoint is stalled and its job has ended; it keeps the endpoint valid |
| `UddEndpoints.UddEndpoint.ClearHalt` | JoystickImplementation/src/ASF/xmega/drivers/usb/usb_device.c:639-660 | the step EndpointSteps.ClearHalt: the stall is lifted, and nothing else changes if no job or wait is registered; it keeps the endpoint valid |
| `UddEndpoints.UddEndpoint.Run` | JoystickImplementation/src/ASF/xmega/drivers/usb/usb_device.c:662-718 | the step EndpointSteps.RunJob, which keeps the endpoint valid; true exactly if the job is accepted |
| `UddEndpoints.UddEndpoint.Abort` | JoystickImplementation/src/ASF/xmega/drivers/usb/usb_device.c:720-742 | the step EndpointSteps.Abort; it keeps the endpoint valid |
| `UddEndpoints.UddEndpoint.WaitStallClear` | JoystickImplementation/src/ASF/xmega/drivers/usb/usb_device.c:744-766 | the step EndpointSteps.WaitStallClear, which keeps the endpoint valid; refused exactly on a halted endpoint that is busy |
| `UddEndpoints.UddEndpoint.CompleteIn` | JoystickImplementation/src/ASF/xmega/drivers/usb/usb_device.c:1352-1386 | the IN branch of a completion is EndpointSteps.InComplete |
| `UddEndpoints.UddEndpoint.CompleteOut` | JoystickImplementation/src/ASF/xmega/drivers/usb/usb_device.c:1388-1448 | the OUT branch of a completion is EndpointSteps.OutComplete |
| `UddEndpoints.UddEndpoint.ArmOut` | JoystickImplementation/src/ASF/xmega/drivers/usb/usb_device.c:1408-1436 | the next OUT window is the one of EndpointSteps.OutArm |
| `UddEndpoints.UddEndpoint.Sent` | JoystickImplementation/src/ASF/xmega/drivers/usb/usb_device.c:846-905 | a sent transfer and its interrupt are the step EvSent; it keeps the endpoint valid |
| `UddEndpoints.UddEndpoint.Received` | JoystickImplementation/src/ASF/xmega/drivers/usb/usb_device.c:846-905 | a received transfer and its interrupt are the step EvReceived; it keeps the endpoint valid |
| `UddEndpoints.IndexIsBijective` | JoystickImplementation/src/ASF/xmega/drivers/usb/usb_device.c:988-996 | endpoint numbers and entries of the control table correspond one to one, and none shares the entries of the control endpoint |
| `UddEndpoints.Udd.AbortAll` | JoystickImplementation/src/ASF/xmega/drivers/usb/usb_device.c:794-803 | a bus reset aborts the job of every endpoint and nothing else |
| `EndpointCalls.RunConfigures` | JoystickImplementation/src/ASF/xmega/drivers/usb/usb_device.c:585-660 | over every run of calls and transfers the endpoint is enabled, with its type and size, and halted exactly as it was asked for last |
| `EndpointCalls.StepConfigures` | JoystickImplementation/src/ASF/xmega/drivers/usb/usb_device.c:585-660 | only allocation, release and the two calls about the halt change that |
| `EndpointCalls.StartsIdle` | JoystickImplementation/src/ASF/xmega/drivers/usb/usb_device.c:451-461 | after udd_enable an endpoint is off and idle |
| `EndpointCalls.SizesKept` | JoystickImplementation/src/ASF/xmega/drivers/usb/usb_device.c:949-980 | each size the hardware knows is taken as it is, any other as 8 |
| `EndpointCalls.AllocArms` | JoystickImplementation/src/ASF/xmega/drivers/usb/usb_device.c:589-606 | a fresh endpoint answers NAK and uses multipacket transfers unless it is isochronous with 1023 bytes; an endpoint in use is left alone |
| `EndpointCalls.HaltEnds` | JoystickImplementation/src/ASF/xmega/drivers/usb/usb_device.c:627-660 | a halt stalls the endpoint and ends its job; the end of the halt lifts the stall whether or not somebody waits for it, and changes nothing else if nobody does |
| `EndpointCalls.FreeClears` | JoystickImplementation/src/ASF/xmega/drivers/usb/usb_device.c:608-616 | a released endpoint has a cleared control register and no job |
| `EndpointCalls.CacheEmptied` | JoystickImplementation/src/ASF/xmega/drivers/usb/usb_device.c:1391-1400 | the tail of an OUT buffer is copied from the cache exactly if it fits there |
| `EndpointCalls.TakenIff` | JoystickImplementation/src/ASF/xmega/drivers/usb/usb_device.c:662-717 | a job is taken if and only if the endpoint is enabled, idle, not halted (or isochronous), and an isochronous OUT buffer is whole packets; a refused one leaves registers, callbacks and the job in progress alone |
| `EndpointCalls.LargestTransfer` | JoystickImplementation/src/ASF/xmega/drivers/usb/usb_device.c:1363-1372 | of what is left a hardware transfer takes all, or as many whole packets as fit 1023 bytes |
| `EndpointCalls.WaitHears` | JoystickImplementation/src/ASF/xmega/drivers/usb/usb_device.c:744-766 | who waits for the end of a halt is called when it ends, at once if there is none, and refused while a job is busy |
| `EndpointLifecycle.StepKeepsLifecycle` | JoystickImplementation/src/ASF/xmega/drivers/usb/usb_device.c:608-766 | every step keeps: each accepted job with a callback is in progress or has had it called exactly once; each halt registration likewise; a busy job implies an enabled, armed endpoint; callbacks are read as the member they were stored in (waits have callbacks and are not aborted, and the halt of an isochronous endpoint does not end under a job) |
| `EndpointLifecycle.RunKeepsLifecycle` | JoystickImplementation/src/ASF/xmega/drivers/usb/usb_device.c:608-766 | the same over every run of API calls and hardware events |
| `EndpointLifecycle.InitialLifecycle` | JoystickImplementation/src/ASF/xmega/drivers/usb/usb_device.c:451-461 | the state after udd_enable satisfies it |
| `EndpointLifecycle.HaltExclusion` | JoystickImplementation/src/ASF/xmega/drivers/usb/usb_device.c:639-690 | a halted endpoint that is not isochronous has no job of udd_ep_run, so udd_ep_clear_halt completes a registered wait only, and completes it for the first time |
| `EndpointLifecycle.HaltExclusionHolds` | JoystickImplementation/src/ASF/xmega/drivers/usb/usb_device.c:627-690 | the same over every run from the start: halt exclusion is a consequence, not a condition |
| `EndpointLifecycle.ClearHaltMisreadsIff` | JoystickImplementation/src/ASF/xmega/drivers/usb/usb_device.c:639-660 | the end of a halt calls the union through the wrong member if and only if a job of udd_ep_run is in progress on the halted endpoint |
| `EndpointLifecycle.AbortMisreadsIff` | JoystickImplementation/src/ASF/xmega/drivers/usb/usb_device.c:720-742 | an abort calls the union through the wrong member if and only if a wait for the end of a halt is registered |
| `EndpointLifecycle.IsochronousHaltMisreads` | JoystickImplementation/src/ASF/xmega/drivers/usb/usb_device.c:639-690 | a run on an isochronous endpoint in which that happens |
| `EndpointLifecycle.NullIsCalledIff` | JoystickImplementation/src/ASF/xmega/drivers/usb/usb_device.c:639-766 | in any state a step calls NULL if and only if it registers a wait without a callback on an endpoint that is not halted, or ends the halt under a job or wait without one |
| `EndpointLifecycle.WaitingForNull` | JoystickImplementation/src/ASF/xmega/drivers/usb/usb_device.c:744-766 | a wait registered without a callback on a halted endpoint leads to the second case |
| `EndpointStatuses.RunKeepsSettled` | JoystickImplementation/src/ASF/xmega/drivers/usb/usb_device.c:608-742 | over every run the completion callbacks are called in the order of their jobs, each with the status with which its job ended |
| `EndpointStatuses.StepKeepsSettled` | JoystickImplementation/src/ASF/xmega/drivers/usb/usb_device.c:608-742 | the same for one step |
| `EndpointStatuses.EndedBy` | JoystickImplementation/src/ASF/xmega/drivers/usb/usb_device.c:608-742 | a job ends with OK by a completion and with ABORT by an abort, a halt or a release |
| `EndpointStatuses.InitialSettled` | JoystickImplementation/src/ASF/xmega/drivers/usb/usb_device.c:451-461 | the state after udd_enable satisfies it |
| `Arithmetic.RemIsMod` | JoystickImplementation/src/ASF/xmega/drivers/usb/usb_device.c:1361-1370 | the remainder used throughout is that of the division |
| `Packets.PacketizeIsFaithful` | JoystickImplementation/src/ASF/xmega/drivers/usb/usb_device.c:1360-1386 | what cutting into packets means: the packets join to the data, all but the last are full, and the last is not empty |
| `EndpointTransfers.InWindow` | JoystickImplementation/src/ASF/xmega/drivers/usb/usb_device.c:1360-1379 | the IN window lies inside the user buffer |
| `EndpointTransfers.InStarts` | JoystickImplementation/src/ASF/xmega/drivers/usb/usb_device.c:691-717 | udd_ep_run on an IN endpoint arms a transfer and never completes within the call |
| `EndpointTransfers.InChunkSent` | JoystickImplementation/src/ASF/xmega/drivers/usb/usb_device.c:1352-1386 | after each hardware transfer the bytes on the bus are exactly the prefix counted, in whole packets so far |
| `EndpointTransfers.InContinues` | JoystickImplementation/src/ASF/xmega/drivers/usb/usb_device.c:1360-1379 | while bytes remain, a positive multiple of the endpoint size no larger than 1023, or the rest, is armed next |
| `EndpointTransfers.InClosesWithZlp` | JoystickImplementation/src/ASF/xmega/drivers/usb/usb_device.c:1380-1386 | a pending short packet is sent as a zero-length packet once all bytes are out |
| `EndpointTransfers.InEnds` | JoystickImplementation/src/ASF/xmega/drivers/usb/usb_device.c:1352-1447 | at completion the bus has seen the buffer in packets, with a zero-length packet exactly if one was wanted, and the callback is told the full count |
| `EndpointTransfers.OutWindow` | JoystickImplementation/src/ASF/xmega/drivers/usb/usb_device.c:1408-1436 | every armed OUT window lies inside the user buffer, in whole packets, or is one packet in the cache |
| `EndpointTransfers.OutStarts` | JoystickImplementation/src/ASF/xmega/drivers/usb/usb_device.c:691-717 | the first window of an OUT job |
| `EndpointTransfers.OutToBufferMore` | JoystickImplementation/src/ASF/xmega/drivers/usb/usb_device.c:1388-1436 | a full window goes on behind what was received |
| `EndpointTransfers.OutToBufferEnds` | JoystickImplementation/src/ASF/xmega/drivers/usb/usb_device.c:1388-1447 | a short or last window ends the job with the prefix received |
| `EndpointTransfers.OutToCache` | JoystickImplementation/src/ASF/xmega/drivers/usb/usb_device.c:1391-1447 | the same for the last packet, through the cache |
| `EndpointTransfers.OutCacheCopy` | JoystickImplementation/src/ASF/xmega/drivers/usb/usb_device.c:1391-1400 | the copy out of the cache fills exactly the unfilled tail of the buffer |
| `EndpointTransfers.OutReceivesAlways` | JoystickImplementation/src/ASF/xmega/drivers/usb/usb_device.c:1388-1447 | every completion either goes on with the stream stored so far, or ends the job with nb_trans = min(received, size) and that prefix of the stream in the buffer |
| `EndpointTransfers.StepFaithful` | JoystickImplementation/src/ASF/xmega/drivers/usb/usb_device.c:662-742 | every step, whatever is interleaved, keeps: a transfer in progress is at an exact point of its buffer, and every job ended with OK satisfies the IN or OUT outcome |
| `EndpointTransfers.AbortTells` | JoystickImplementation/src/ASF/xmega/drivers/usb/usb_device.c:720-742 | an aborted job is told the count of the hardware transfer in progress, whatever part of that has been moved, and that is what the job has moved if and only if it is its first transfer; the record of the job has the bytes moved before it |
| `EndpointTransfers.RunKeepsFaithful` | JoystickImplementation/src/ASF/xmega/drivers/usb/usb_device.c:662-742 | the same over every run |
| `EndpointTransfers.InitialFaithful` | JoystickImplementation/src/ASF/xmega/drivers/usb/usb_device.c:451-461 | the state after udd_enable satisfies it |
| `EndpointOutcomes.InTransfer` | JoystickImplementation/src/ASF/xmega/drivers/usb/usb_device.c:662-718 | a whole IN job, for every buffer and endpoint size: the transfers concatenate to the buffer, each but the last is whole packets of at most 1023 bytes, a zero-length packet ends it if and only if (b_shortpacket or size 0) and size is a multiple of the endpoint size, and the callback hears OK once |
| `EndpointOutcomes.SentBounded` | JoystickImplementation/src/ASF/xmega/drivers/usb/usb_device.c:1352-1386 | no IN job outlives the measure: remaining bytes plus pending zero-length packet |
| `EndpointOutcomes.SentDecreases` | JoystickImplementation/src/ASF/xmega/drivers/usb/usb_device.c:1352-1386 | each completion that does not end the job decreases it |
| `EndpointOutcomes.InRunsToEnd` | JoystickImplementation/src/ASF/xmega/drivers/usb/usb_device.c:1352-1386 | from any point the remaining completions bring the job to its end |
| `EndpointOutcomes.ReceptionsCount` | JoystickImplementation/src/ASF/xmega/drivers/usb/usb_device.c:1388-1447 | any sequence of receptions of an OUT job keeps the count and content exact |
| `EndpointOutcomes.OutCountsIff` | JoystickImplementation/src/ASF/xmega/drivers/usb/usb_device.c:1401-1407 | nb_trans and content are exact for every host if and only if the size rounded up to whole packets stays below 65536 (or is a multiple of the endpoint size) |
| `EndpointOutcomes.LastPacketWraps` | JoystickImplementation/src/ASF/xmega/drivers/usb/usb_device.c:1401-1407 | the 16-bit wrap of nb_trans when it does not: the failing step |
| `UddControl.ControlEndpoint.Interrupt` | JoystickImplementation/src/ASF/xmega/drivers/usb/usb_device.c:1017-1300 | every interrupt, for any host, keeps the invariant (each callback call belongs to its accepted SETUP, armed IN packets lie inside the payload), stalls endpoint 0 exactly for a rejected request, refused data and a broken status stage, calls the callback exactly when it is due and with the fields of its own request, changes the address by that call or a reset only, and leaves the payload exactly for a stray packet |
| `ControlCallbacks.StepKeepsLedger` | JoystickImplementation/src/ASF/xmega/drivers/usb/usb_device.c:998-1253 | every step keeps: each callback call in the log belongs to an accepted SETUP with that callback and its own request fields, at most once per SETUP; the device address is the one the log gives |
| `ControlCallbacks.RunKeepsLedger` | JoystickImplementation/src/ASF/xmega/drivers/usb/usb_device.c:998-1253 | the same over every run |
| `ControlCallbacks.InitialLedger` | JoystickImplementation/src/ASF/xmega/drivers/usb/usb_device.c:806-814 | the state after a bus reset satisfies it |
| `ControlCallbacks.FiresExactly` | JoystickImplementation/src/ASF/xmega/drivers/usb/usb_device.c:1247-1253 | a step calls the callback exactly from a HANDSHAKE_WAIT state, at the end of the status stage or at a SETUP packet that hides it, before the request fields are overwritten |
| `ControlCallbacks.AddressChanges` | JoystickImplementation/src/ASF/common/services/usb/udc/udc.c:575-595 | outside a bus reset the address changes only then, to wValue & 0x7F of that same SET_ADDRESS |
| `ControlCallbacks.AddressWaitsForStatus` | JoystickImplementation/src/ASF/common/services/usb/udc/udc.c:585-595 | accepting SET_ADDRESS leaves the address alone until the status packet is sent |
| `ControlCallbacks.StalledStatusStillFires` | JoystickImplementation/src/ASF/xmega/drivers/usb/usb_device.c:1190-1222 | a status stage that was stalled still calls the callback at the next SETUP packet |
| `ControlData.TurnsIff` | JoystickImplementation/src/ASF/xmega/drivers/usb/usb_device.c:1067-1222 | a step leaves an endpoint armed out of turn if and only if the host breaks off a data stage with an early status stage |
| `ControlData.AssertionsHold` | JoystickImplementation/src/ASF/xmega/drivers/usb/usb_device.c:1079-1133 | over every run without early status stages the assertions of the source on the state hold |
| `ControlData.StoreStep` | JoystickImplementation/src/ASF/xmega/drivers/usb/usb_device.c:1134-1146 | a received packet is appended inside the payload |
| `ControlData.OutGoesOn` | JoystickImplementation/src/ASF/xmega/drivers/usb/usb_device.c:1147-1188 | a packet after which the OUT stage continues is full, stored whole, counted exactly, and brings prev+trans closer to wLength |
| `ControlData.OutStops` | JoystickImplementation/src/ASF/xmega/drivers/usb/usb_device.c:1147-1170 | a packet that ends the stage: what fits is stored, and the status stage or a stall follows exactly as refused or not |
| `ControlData.OutStopsContent` | JoystickImplementation/src/ASF/xmega/drivers/usb/usb_device.c:1147-1170 | with one buffer, payload_size is then the number of bytes stored and the buffer holds them |
| `ControlData.OutReceptionsSafeIff` | JoystickImplementation/src/ASF/xmega/drivers/usb/usb_device.c:1134-1146 | as long as the host sends nothing but data packets, no copy of a stage with one buffer leaves the payload if and only if wLength or payload_size is at most 65528 |
| `ControlSafety.OutStageSafeIff` | JoystickImplementation/src/ASF/xmega/drivers/usb/usb_device.c:1121-1207 | whatever the host does up to its next SETUP packet, early status stages included, no copy of a stage with one buffer leaves the payload if and only if the stage is over with its first packet (wLength or payload_size at most 8) |
| `ControlSafety.EarlyStatusOverruns` | JoystickImplementation/src/ASF/xmega/drivers/usb/usb_device.c:1137-1143 | otherwise a packet, an early status stage and another packet do: udd_ctrl_init has cleared payload_size but not the count, and endpoint 0 OUT is still armed |
| `ControlSafety.EarlyStatusWitness` | JoystickImplementation/src/ASF/xmega/drivers/usb/usb_device.c:1137-1143 | such a run from the start, with a request of 16 bytes |
| `ControlSafety.StoreFaultIff` | JoystickImplementation/src/ASF/xmega/drivers/usb/usb_device.c:1134-1146 | in every state: the copy of a received packet leaves the payload if and only if payload_size is below the count or the packet takes the count past 16 bits |
| `ControlSafety.ReceivedFaultIff` | JoystickImplementation/src/ASF/xmega/drivers/usb/usb_device.c:1121-1188 | the same for the whole handling of the packet, which is exempt while a status packet is due |
| `ControlSafety.StepSafe` | JoystickImplementation/src/ASF/xmega/drivers/usb/usb_device.c:1017-1253 | every step, of any host and with any answers, keeps armed IN packets inside the payload, and faults exactly for such a packet |
| `ControlSafety.NextInSafe` | JoystickImplementation/src/ASF/xmega/drivers/usb/usb_device.c:1067-1119 | the next IN packet comes from inside the reply, also after the host has begun the status stage |
| `ControlSafety.SetupSafe` | JoystickImplementation/src/ASF/xmega/drivers/usb/usb_device.c:1017-1065 | an accepted SETUP packet arms exactly one endpoint for its first stage, an OUT data stage with the count at 0 and an IN data stage with the count of the packet armed, and lifts the stall; a rejected one stalls endpoint 0 and arms nothing; one of another size than 8 is ignored |
| `ControlStages.StalledIff` | JoystickImplementation/src/ASF/xmega/drivers/usb/usb_device.c:1017-1230 | after every step endpoint 0 is stalled if and only if the step was a rejected SETUP packet, OUT data was refused (by over_under_run, or for want of room), or the host went on with the data stage in the status stage; SETUP packets and bus resets lift the stall |
| `ControlStages.RejectedStalls` | JoystickImplementation/src/ASF/xmega/drivers/usb/usb_device.c:1039-1043 | a rejected request is answered with a stall, from any state, and no packet moves until the next SETUP packet |
| `ControlStages.SetupStalls` | JoystickImplementation/src/ASF/xmega/drivers/usb/usb_device.c:1017-1065 | a SETUP packet leaves the stall state exactly if it is rejected |
| `ControlStages.NoDataKeepsCounters` | JoystickImplementation/src/ASF/xmega/drivers/usb/usb_device.c:1045-1065 | a request without data arms the status packet and leaves the counters of the data stage before it |
| `ControlStages.ResetForgets` | JoystickImplementation/src/ASF/xmega/drivers/usb/usb_device.c:806-814 | a bus reset leaves address 0, nothing armed, no stall, no callback and no payload |
| `ControlStages.InitialIsReset` | JoystickImplementation/src/ASF/xmega/drivers/usb/usb_device.c:806-814 | the start is what a bus reset leaves where nothing has happened |
| `ControlStages.ErrorsWatched` | JoystickImplementation/src/ASF/xmega/drivers/usb/usb_device.c:998-1012 | underflow and overflow are watched exactly from a SETUP packet to the end of its request, over every run without early status stages |
| `ControlStages.NextInBuffer` | JoystickImplementation/src/ASF/xmega/drivers/usb/usb_device.c:1089-1119 | an IN data stage goes on in the buffer over_under_run supplies |
| `ControlStages.InCloses` | JoystickImplementation/src/ASF/xmega/drivers/usb/usb_device.c:1079-1119 | an IN data stage without another buffer is closed by a zero-length packet unless all is sent or the last packet was short |
| `ControlStages.NextOutBuffer` | JoystickImplementation/src/ASF/xmega/drivers/usb/usb_device.c:1148-1188 | an OUT data stage goes on in the buffer over_under_run supplies, from its start |
| `ControlStages.EndSizes` | JoystickImplementation/src/ASF/xmega/drivers/usb/usb_device.c:1152-1165 | at the end of an OUT data stage payload_size is the count, unless over_under_run supplies a buffer |
| `ControlSafety.ShortRequestsAreSafe` | JoystickImplementation/src/ASF/xmega/drivers/usb/usb_device.c:1017-1188 | over every run whose OUT data stages are over with their first packet no copy leaves the payload |
| `ControlData.OutStageBounded` | JoystickImplementation/src/ASF/xmega/drivers/usb/usb_device.c:1121-1188 | the OUT stage ends: at most wLength/8 packets continue it |
| `ControlSafety.RunDataSafe` | JoystickImplementation/src/ASF/xmega/drivers/usb/usb_device.c:1067-1188 | over every run, with any requests, answers and packets: armed IN packets lie inside the payload, and a copy has left the payload if and only if a packet was received with payload_size below the count or past 16 bits |
| `ControlSafety.InitialSafe` | JoystickImplementation/src/ASF/xmega/drivers/usb/usb_device.c:806-814 | the state after a bus reset satisfies it |
| `ControlData.OrderlyRunsKeepData` | JoystickImplementation/src/ASF/xmega/drivers/usb/usb_device.c:1067-1188 | over every run in which the host lets data stages end and they can be counted in 16 bits: what is stored is what the host has sent, in order, and no copy leaves its buffer |
| `ControlData.DataEnds` | JoystickImplementation/src/ASF/xmega/drivers/usb/usb_device.c:1149-1165 | the end of the OUT data stage arms the status packet or stalls, exactly as over_under_run answers, and stores nothing more |
| `ControlCallbacks.EndLedger` | JoystickImplementation/src/ASF/xmega/drivers/usb/usb_device.c:998-1253 | the end of a request settles its entry: callback called once, address updated, none registered any more |
| `ControlData.InStageRuns` | JoystickImplementation/src/ASF/xmega/drivers/usb/usb_device.c:1067-1119 | from any point of an IN stage the remaining packets bring it to HANDSHAKE_WAIT_OUT_ZLP |
| `ControlData.InTransfer` | JoystickImplementation/src/ASF/xmega/drivers/usb/usb_device.c:1045-1119 | an accepted IN request with a reply puts exactly the reply in 8-byte packets on the bus, with a zero-length packet if and only if it is shorter than wLength and a multiple of 8, whatever the previous request left in b_shortpacket |
| `ControlData.EmptyReplyExposesStaleFlag` | JoystickImplementation/src/ASF/xmega/drivers/usb/usb_device.c:1067-1103 | with an empty reply, which an empty name gives, the outcome depends on the stale flag |
| `Descriptors.ParseEncode` | JoystickImplementation/src/ASF/common/services/usb/udc/udc.c:183-254 | reading the bytes of a descriptor list gives the list |
| `Descriptors.EncodeParse` | JoystickImplementation/src/ASF/common/services/usb/udc/udc.c:183-254 | writing the list of some bytes gives the bytes |
| `Descriptors.AheadSpec` | JoystickImplementation/src/ASF/common/services/usb/udc/udc.c:183-207 | the reference search: exactly the descriptors of the type before the next interface descriptor, in order |
| `Descriptors.FindIfaceUnique` | JoystickImplementation/src/ASF/common/services/usb/udc/udc.c:219-254 | the reference search for an interface: the first match, and no other position |
| `UdcConfiguration.FindIfaceDesc` | JoystickImplementation/src/ASF/common/services/usb/udc/udc.c:231-253 | the byte walk succeeds if and only if a matching interface descriptor exists and lands on the first |
| `UdcConfiguration.NextDescInIface` | JoystickImplementation/src/ASF/common/services/usb/udc/udc.c:183-207 | the byte walk returns the first descriptor of the reference search, or none |
| `UdcConfiguration.NextEndpoint` | JoystickImplementation/src/ASF/common/services/usb/udc/udc.c:286-299 | iterated, it enumerates the endpoints of the interface in order, by their entries in the table of the driver, and none is the control endpoint |
| `UdcConfiguration.DeviceCore.UpdateIfaceDesc` | JoystickImplementation/src/ASF/common/services/usb/udc/udc.c:219-254 | found if and only if configured, num < bNumInterfaces and the descriptor exists; udc_ptr_iface is at it |
| `UdcConfiguration.DeviceCore.FreeEndpoints` | JoystickImplementation/src/ASF/common/services/usb/udc/udc.c:283-302 | frees exactly the endpoints behind the interface descriptor |
| `UdcConfiguration.DeviceCore.AllocEndpoints` | JoystickImplementation/src/ASF/common/services/usb/udc/udc.c:323-344 | allocates them in order up to one whose entry in the table of the driver is already in use; true if none is |
| `UdcConfiguration.DeviceCore.IfaceDisable` | JoystickImplementation/src/ASF/common/services/usb/udc/udc.c:264-308 | frees exactly the endpoints of the active setting |
| `UdcConfiguration.DeviceCore.IfaceEnable` | JoystickImplementation/src/ASF/common/services/usb/udc/udc.c:316-347 | the state after an enable that succeeds or stops part way, and whether the enable function of the UDI was reached |
| `UdcConfiguration.DeviceCore.Reset` | JoystickImplementation/src/ASF/common/services/usb/udc/udc.c:368-393 | no endpoint remains allocated, even after an enable that failed part way; this rests on getsetting reporting the setting the core has selected last, also when the enable function of the UDI was not reached |
| `UdcConfiguration.DeviceCore.SetConfiguration` | JoystickImplementation/src/ASF/common/services/usb/udc/udc.c:793-850 | succeeds if and only if the checks pass and every default setting can be enabled; then exactly the endpoints of alternate setting 0 of all interfaces are allocated; after a failure every allocated endpoint still has an owner that will free it |
| `UdcConfiguration.DeviceCore.EnableAll` | JoystickImplementation/src/ASF/common/services/usb/udc/udc.c:843-849 | the loop over the interfaces enables all default settings or stops with every allocated endpoint owned |
| `UdcConfiguration.DeviceCore.SetInterface` | JoystickImplementation/src/ASF/common/services/usb/udc/udc.c:896-917 | succeeds if and only if both settings exist and the endpoints of the new one are free; then they have replaced those of the old one |
| `UdcConfiguration.DeviceCore.ResetAfter` | JoystickImplementation/src/ASF/common/services/usb/udc/udc.c:368-393 | a reset after any list of requests leaves no endpoint allocated |
| `UdcConfiguration.AllEnableIff` | JoystickImplementation/src/ASF/common/services/usb/udc/udc.c:843-849 | SET_CONFIGURATION can enable all interfaces if and only if each has a default setting and an agreeing UDI and no entry of the endpoint table occurs twice |
| `UdcConfiguration.AllocAllSpec` | JoystickImplementation/src/ASF/common/services/usb/udc/udc.c:323-344 | allocation one by one succeeds exactly for new and different endpoints and never touches others |
| `UdcConfiguration.DriverAgrees` | JoystickImplementation/src/ASF/xmega/drivers/usb/usb_device.c:585-616 | of all steps of the driver only udd_ep_alloc and udd_ep_free change the set of allocated entries |
| `UdcConfiguration.EntryTells` | JoystickImplementation/src/ASF/xmega/drivers/usb/usb_device.c:988-996 | two addresses share an entry if and only if they have the same number and direction; entries 0 and 1 belong to the control endpoint |
| `UdcConfiguration.WordBytes` | JoystickImplementation/src/ASF/common/services/usb/udc/udc.c:231-253 | wTotalLength is little-endian |
| `Selections.IfaceEpsMeans` | JoystickImplementation/src/ASF/common/services/usb/udc/udc.c:183-254 | the walks of the core find exactly the endpoint descriptors between the first matching interface descriptor and the next interface descriptor |
| `Selections.DefaultEpsMean` | JoystickImplementation/src/ASF/common/services/usb/udc/udc.c:843-849 | the same for the default settings of all interfaces |
| `Selections.SetConfRefusedIff` | JoystickImplementation/src/ASF/common/services/usb/udc/udc.c:793-830 | SET_CONFIGURATION is refused at once, and changes nothing, if and only if it has data, the address is 0 or the value is above the number of configurations; otherwise the value is the configuration afterwards, 0 included |
| `Selections.Deconfigured` | JoystickImplementation/src/ASF/common/services/usb/udc/udc.c:823-830 | SET_CONFIGURATION(0) then always succeeds and leaves no endpoint in use |
| `Selections.ConfigurationSelected` | JoystickImplementation/src/ASF/common/services/usb/udc/udc.c:823-850 | another value succeeds if and only if every interface has a default setting and a willing UDI and no endpoint occurs twice; then exactly the endpoints of the default settings are in use |
| `Selections.SettingSelected` | JoystickImplementation/src/ASF/common/services/usb/udc/udc.c:896-917 | SET_INTERFACE succeeds if and only if the settings exist, the new endpoints clash with none in use elsewhere and the UDI is willing; then the interface has that setting and its endpoints have replaced the old ones |
| `SetupRequests.AnswersAreOk` | JoystickImplementation/src/ASF/common/services/usb/udc/udc.c:1092-1133 | every answer satisfies what the control endpoint relies on; an accepted IN request has at most wLength bytes, and none if and only if it asks for an empty name; the address callback belongs to SET_ADDRESS without data |
| `SetupRequests.AcceptedData` | JoystickImplementation/src/ASF/common/services/usb/udc/udc.c:415-446 | accepted IN requests carry data, an empty name apart |
| `SetupRequests.AcceptedRoom` | JoystickImplementation/src/ASF/common/services/usb/udc/udc.c:973-1009 | accepted OUT requests take no data or the feature report, and only SET_ADDRESS without data registers the address callback |
| `SetupRequests.CoreThenUdi` | JoystickImplementation/src/ASF/common/services/usb/udc/udc.c:1104-1123 | what the UDIs accept never changes the core |
| `SetupRequests.SetIfaceEffect` | JoystickImplementation/src/ASF/common/services/usb/udc/udc.c:896-917 | SET_INTERFACE: the core as the table says, and idle rate and protocol reset when the enable function is reached |
| `SetupRequests.SetConfEffect` | JoystickImplementation/src/ASF/common/services/usb/udc/udc.c:793-850 | SET_CONFIGURATION: likewise |
| `SetupRequests.SetIdleAccepted` | JoystickImplementation/src/ASF/common/services/usb/class/hid/device/udi_hid.c:84-106 | SET_IDLE is accepted exactly by an interface that is present, or for an endpoint by the first one, whatever wLength is |
| `SetupRequests.FirstAnswerIs` | JoystickImplementation/src/ASF/common/services/usb/udc/udc.c:1053-1078 | a request to an endpoint is answered by the first interface that accepts it, unless one before it is missing |
| `RequestReplies.DeviceReply` | JoystickImplementation/src/ASF/common/services/usb/udc/udc.c:661-682 | GET_DESCRIPTOR(DEVICE) sends the device descriptor, up to wLength bytes |
| `RequestReplies.ConfigurationReply` | JoystickImplementation/src/ASF/common/services/usb/udc/udc.c:684-718 | GET_DESCRIPTOR(CONFIGURATION, i) sends configuration i, and none past the last |
| `RequestReplies.StringReplies` | JoystickImplementation/src/ASF/common/services/usb/udc/udc.c:602-654 | GET_DESCRIPTOR(STRING, i): the language list, or a descriptor whose characters are those of the name with zero bytes between; other strings are rejected |
| `RequestReplies.OtherDescriptors` | JoystickImplementation/src/ASF/common/services/usb/udc/udc.c:720-758 | other descriptors of the device are rejected |
| `RequestReplies.RepliesHaveType` | JoystickImplementation/src/ASF/common/services/usb/udc/udc.c:661-771 | a reply that is not cut parses, and starts with a descriptor of the type asked for |
| `RequestReplies.StatusReply` | JoystickImplementation/src/ASF/common/services/usb/udc/udc.c:415-426 | GET_STATUS of the device |
| `RequestReplies.SelectedReply` | JoystickImplementation/src/ASF/common/services/usb/udc/udc.c:778-786 | GET_CONFIGURATION |
| `RequestReplies.SettingReply` | JoystickImplementation/src/ASF/common/services/usb/udc/udc.c:858-889 | GET_INTERFACE, for an interface of the configuration in use |
| `RequestReplies.HaltReply` | JoystickImplementation/src/ASF/common/services/usb/udc/udc.c:432-447 | GET_STATUS of an endpoint tells whether it is halted |
| `RequestReplies.FeatureAccepted` | JoystickImplementation/src/ASF/common/services/usb/udc/udc.c:454-569 | SET_FEATURE and CLEAR_FEATURE are accepted without data for remote wakeup of the device, and for the halt of an endpoint if the driver agrees |
| `RequestReplies.AddressAccepted` | JoystickImplementation/src/ASF/common/services/usb/udc/udc.c:585-595 | SET_ADDRESS without data registers the callback |
| `RequestReplies.OthersRejected` | JoystickImplementation/src/ASF/common/services/usb/udc/udc.c:924-1133 | every request that is not one of the twelve of the core and the seven left to the UDIs is rejected, and so is a request for no data |
| `RequestReplies.PresentIs` | JoystickImplementation/src/ASF/common/services/usb/udc/udc.c:1018-1045 | an interface is asked if its descriptor exists in the setting in use, and for requests to an interface also in the default setting |
| `RequestReplies.HidReplies` | JoystickImplementation/src/ASF/common/services/usb/class/hid/device/udi_hid.c:67-86 | GET_REPORT, GET_IDLE and GET_PROTOCOL of an interface in use |
| `RequestReplies.HidAccepted` | JoystickImplementation/src/ASF/common/services/usb/class/hid/device/udi_hid.c:88-106 | SET_REPORT, SET_IDLE and SET_PROTOCOL |
| `RequestReplies.HidDescriptors` | JoystickImplementation/src/ASF/common/services/usb/class/hid/device/udi_hid.c:116-151 | the HID descriptor behind the interface descriptor, and as much of the report descriptor as it announces |
| `RequestReplies.WakeupRoundTrip` | JoystickImplementation/src/ASF/common/services/usb/udc/udc.c:415-530 | after SET_FEATURE of remote wakeup GET_STATUS sends 2, after CLEAR_FEATURE 0 |
| `RequestReplies.ConfigurationRoundTrip` | JoystickImplementation/src/ASF/common/services/usb/udc/udc.c:778-850 | after SET_CONFIGURATION(n) GET_CONFIGURATION sends n |
| `RequestReplies.SettingRoundTrip` | JoystickImplementation/src/ASF/common/services/usb/udc/udc.c:858-917 | after SET_INTERFACE GET_INTERFACE sends the setting |
| `RequestReplies.IdleRoundTrip` | JoystickImplementation/src/ASF/common/services/usb/class/hid/device/udi_hid.c:72-98 | after SET_IDLE GET_IDLE sends the rate, which is the upper byte of wValue |
| `RequestReplies.ProtocolRoundTrip` | JoystickImplementation/src/ASF/common/services/usb/class/hid/device/udi_hid.c:78-105 | after SET_PROTOCOL GET_PROTOCOL sends the protocol |
| `RequestReplies.SelectionResets` | JoystickImplementation/src/ASF/common/services/usb/class/hid/device/generic/udi_hid_generic.c:170-179 | after a selection that succeeds GET_IDLE and GET_PROTOCOL would send 0 |
| `RequestReplies.OthersKeep` | JoystickImplementation/src/ASF/common/services/usb/udc/udc.c:924-1133 | no other request changes what can be read back |
| `SetupDecoder.Decoder.ProcessSetup` | JoystickImplementation/src/ASF/common/services/usb/udc/udc.c:1092-1133 | the nested dispatch gives exactly the answer of the flat request table, with its effect on configuration, device status, idle rate and protocol; the latter two are reset whenever SET_CONFIGURATION or SET_INTERFACE reaches the enable function, whatever that answers |
| `SetupDecoder.Decoder.Decode` | JoystickImplementation/src/ASF/common/services/usb/udc/udc.c:1099-1132 | core first, then interface and endpoint requests: the answer of the table, and its effects |
| `SetupDecoder.Decoder.ReqStdGet` | JoystickImplementation/src/ASF/common/services/usb/udc/udc.c:926-972 | the GET requests of the core, as in the table |
| `SetupDecoder.Decoder.ReqStdSet` | JoystickImplementation/src/ASF/common/services/usb/udc/udc.c:973-1009 | the SET requests of the core, as in the table, with their effects |
| `SetupDecoder.Decoder.ReqIface` | JoystickImplementation/src/ASF/common/services/usb/udc/udc.c:1018-1045 | interface requests reach the UDI of an interface whose default and active settings exist |
| `SetupDecoder.Decoder.ReqEp` | JoystickImplementation/src/ASF/common/services/usb/udc/udc.c:1053-1078 | endpoint requests reach the first interface that accepts them |
| `SetupDecoder.Decoder.GetDescriptor` | JoystickImplementation/src/ASF/common/services/usb/udc/udc.c:661-771 | the descriptor asked for, cut to wLength |
| `SetupDecoder.Decoder.GetStrDesc` | JoystickImplementation/src/ASF/common/services/usb/udc/udc.c:602-654 | language, manufacturer, product or serial string |
| `SetupDecoder.Decoder.WidenName` | JoystickImplementation/src/ASF/common/services/usb/udc/udc.c:641-647 | the loop builds the string descriptor with 16-bit characters |
| `SetupDecoder.Decoder.HidSetup` | JoystickImplementation/src/ASF/common/services/usb/class/hid/device/udi_hid.c:57-106 | the HID class requests, as in the table |
| `SetupDecoder.Decoder.HidGetDescriptor` | JoystickImplementation/src/ASF/common/services/usb/class/hid/device/udi_hid.c:116-151 | the HID or report descriptor behind udc_ptr_iface, cut to wLength |
| `SetupDecoder.Decoder.SetReport` | JoystickImplementation/src/ASF/common/services/usb/class/hid/device/generic/udi_hid_generic.c:203-218 | accepts exactly feature report 0 of its own size |
| `SetupDecoder.HidReplyBytes` | JoystickImplementation/src/ASF/common/services/usb/class/hid/device/udi_hid.c:116-151 | the bytes read behind the interface descriptor give the reply of the descriptor list |
| `SetupDecoder.ReplyReachesHost` | JoystickImplementation/src/ASF/xmega/drivers/usb/usb_device.c:1017-1119 | decoder and control endpoint together: the reply of the table reaches the host in full, cut to wLength |
| `SetupDecoder.OutAnswersHaveRoom` | JoystickImplementation/src/ASF/common/services/usb/udc/udc.c:1092-1133 | accepted OUT requests have one buffer, that of the feature report or none, so their data stages are over with the first packet, or countable, if the feature report is small enough |
| `JoystickDevice.ConfigParsed` | JoystickImplementation/src/ASF/common/services/usb/class/hid/device/generic/udi_hid_generic_desc.c:115-126 | the configuration descriptor of this device is well formed |
| `JoystickDevice.ConfigDefault` | JoystickImplementation/src/ASF/common/services/usb/class/hid/device/generic/udi_hid_generic.h:82-113 | SET_CONFIGURATION(1) succeeds if the UDI agrees and allocates exactly the entry of endpoint 0x81 |
| `JoystickDevice.JoystickDecisions` | JoystickImplementation/src/ASF/common/services/usb/class/hid/device/generic/udi_hid_generic_desc.c:56-159 | every answer of this device satisfies what the control endpoint relies on, and no accepted IN request has an empty reply |
| `JoystickDevice.JoystickNeverFaults` | JoystickImplementation/src/ASF/xmega/drivers/usb/usb_device.c:1017-1253 | on this device no copy of the control endpoint leaves its payload, over every run and for every host |
| `JoystickDevice.ConfigReaches` | JoystickImplementation/src/ASF/common/services/usb/class/hid/device/generic/udi_hid_generic.c:170-179 | selecting configuration 1 resets idle rate and protocol |
| `JoystickDevice.JoystickDescriptors` | JoystickImplementation/src/ASF/common/services/usb/class/hid/device/generic/udi_hid_generic_desc.c:60-126 | the device and configuration descriptors a host reads from this device |
| `JoystickDevice.JoystickReports` | JoystickImplementation/src/ASF/common/services/usb/class/hid/device/generic/udi_hid_generic_desc.c:115-159 | while it is configured, the HID descriptor and the report descriptor of 27 bytes |
| `JoystickDevice.JoystickConfigures` | JoystickImplementation/src/ASF/common/services/usb/udc/udc.c:793-850 | SET_CONFIGURATION of this device: with an address, 0 is always accepted and 1 if the UDI agrees, and the report endpoint is in use exactly in configuration 1 |
| `Enumeration.RunKeepsEnumerated` | JoystickImplementation/src/ASF/common/services/usb/udc/udc.c:793-850 | control endpoint, decoder and core together, over every run: while a configuration is in use, the status stage of a SET_ADDRESS with a non-zero address has come since the last bus reset |
| `Enumeration.StepKeepsEnumerated` | JoystickImplementation/src/ASF/common/services/usb/udc/udc.c:793-850 | the same for one step |
| `Enumeration.SelectionNeedsAddress` | JoystickImplementation/src/ASF/common/services/usb/udc/udc.c:802-805 | a configuration is selected only by a SET_CONFIGURATION that is decoded while the address is not 0 |
| `Enumeration.AddressFromIff` | JoystickImplementation/src/ASF/common/services/usb/udc/udc.c:575-595 | the address is not 0 if and only if the last bus reset or SET_ADDRESS status stage is one with a non-zero address |
| `Enumeration.InitialEnumerated` | JoystickImplementation/src/ASF/xmega/drivers/usb/usb_device.c:806-814 | the state after a bus reset satisfies it |
| `Enumeration.UsbDevice.Setup` | JoystickImplementation/src/ASF/xmega/drivers/usb/usb_device.c:1017-1065 | udd_ctrl_setup_received with udc_process_setup inside is one such step: the answer of the table for the address the driver has then, with its effect on the core |
| `Enumeration.UsbDevice.Decode` | JoystickImplementation/src/ASF/common/services/usb/udc/udc.c:1092-1133 | udc_process_setup with that address gives the answer of the table |
| `Enumeration.UsbDevice.BusReset` | JoystickImplementation/src/ASF/xmega/drivers/usb/usb_device.c:789-814 | a bus reset of both layers is one such step |
| `Enumeration.UsbDevice.Interrupt` | JoystickImplementation/src/ASF/xmega/drivers/usb/usb_device.c:1067-1300 | so is every other interrupt |
| `HidReport.ReportSingleFlight` | JoystickImplementation/src/ASF/common/services/usb/class/hid/device/generic/udi_hid_generic.c:170-242 | over every run: while enabled, report_in_free is false if and only if a job is busy on the IN endpoint, and a completion, abort, halt or reconfiguration frees it |
| `HidReport.StepKeepsFlight` | JoystickImplementation/src/ASF/common/services/usb/class/hid/device/generic/udi_hid_generic.c:223-242 | every step keeps one report in flight at most, and its buffer unchanged |
| `HidReport.SendStarts` | JoystickImplementation/src/ASF/common/services/usb/class/hid/device/generic/udi_hid_generic.c:223-242 | an accepted report is in flight afterwards: the callback has not run inside udd_ep_run |
| `HidReport.SentReport` | JoystickImplementation/src/ASF/common/services/usb/class/hid/device/generic/udi_hid_generic.c:278-285 | one transfer carries exactly the report and frees the flag |
| `HidReport.StoppedReport` | JoystickImplementation/src/ASF/common/services/usb/class/hid/device/generic/udi_hid_generic.c:278-285 | abort, halt and free give the report up and free the flag |
| `HidReport.AcceptsIff` | JoystickImplementation/src/ASF/common/services/usb/class/hid/device/generic/udi_hid_generic.c:223-242 | a report is accepted if and only if the endpoint is enabled, not halted and idle |
| `HidReport.ConfiguredAccepts` | JoystickImplementation/src/ASF/common/services/usb/class/hid/device/generic/udi_hid_generic.c:170-179 | once its endpoint is allocated the interface accepts reports |
| `HidReport.HaltedReportsResume` | JoystickImplementation/src/ASF/xmega/drivers/usb/usb_device.c:627-660 | a halt by the host stops the reports, and after the end of the halt the next one is accepted and on its way |
| `HidReport.HidGeneric.SendReportIn` | JoystickImplementation/src/ASF/common/services/usb/class/hid/device/generic/udi_hid_generic.c:223-242 | the step SendReport; true exactly if the report is accepted |
| `HidReport.HidGeneric.Configure` | JoystickImplementation/src/ASF/common/services/usb/class/hid/device/generic/udi_hid_generic.c:170-179 | udd_ep_alloc with udi_hid_generic_enable |
| `HidReport.HidGeneric.DriverStep` | JoystickImplementation/src/ASF/common/services/usb/class/hid/device/generic/udi_hid_generic.c:278-285 | a driver step with the callback it may cause |
| `Joystick.Scan` | JoystickImplementation/src/joystick.c:14-19 | the lowest touched pad, or -1 |
| `Joystick.FirstTouched` | JoystickImplementation/src/joystick.c:14-19 | that pad is touched and no lower one is |
| `Joystick.AxisIsInjective` | JoystickImplementation/src/joystick.c:59-70 | the twelve positions and no contact have thirteen different axis values |
| `Joystick.AxisIsLinear` | JoystickImplementation/src/joystick.c:59-70 | the twelve axis values go from 0 to 255, increase with the position and are within one of equal steps |
| `Joystick.PadsAndPins` | JoystickImplementation/src/joystick.c:27-48 | every pad is read from a pin of its own: E0-E7 and B0-B3 horizontally, C2-C7 and D0-D5 vertically |
| `Joystick.SampleIsInjective` | JoystickImplementation/src/joystick.c:59-70 | two samples agree if and only if both slider positions do |
| `Joystick.SamplePictures` | JoystickImplementation/src/joystick.c:123-127 | from the ports: byte 0 of the sample is the horizontal slider and byte 1 the vertical one, each 128 if no pad is low and otherwise the axis value of its lowest low pad |
| `Joystick.TickSpec` | JoystickImplementation/src/joystick.c:123-136 | a report is accepted if and only if a slider has moved since the last one and the endpoint can take it; jstk_prevReport is the current sample if and only if the endpoint could take it or nothing moved |
| `Joystick.RunKeepsStream` | JoystickImplementation/src/joystick.c:120-136 | over every run of ticks and endpoint events: jstk_prevReport is the last accepted report or {128,128}, consecutive accepted reports differ, and the jobs of the endpoint are the accepted reports in order |
| `Joystick.HostUpToDate` | JoystickImplementation/src/joystick.c:123-136 | at rest the host has received all accepted reports if and only if none was aborted |
| `Joystick.AbortedReportIsLost` | JoystickImplementation/src/joystick.c:128-134 | an accepted report that is aborted is not sent again however often jstk_usbTask runs with the sliders unmoved |
| `Joystick.JoystickTask.Tick` | JoystickImplementation/src/joystick.c:123-136 | it is the step UsbTask on the positions the ports show; an accepted report pictures the ports, byte 0 the horizontal slider and byte 1 the vertical one, and is the job in progress |
| `SleepLocks.RunKeepsBalance` | JoystickImplementation/src/ASF/xmega/drivers/usb/usb_device.c:157-166 | over every run with alternating udd_enable and udd_disable: counts are the sum of what is held, no lock or unlock hangs, and the driver holds its idle lock if and only if udd_b_idle |
| `SleepLocks.StepKeeps` | JoystickImplementation/src/ASF/xmega/drivers/usb/usb_device.c:157-166 | the same for one step |
| `SleepLocks.LocksCount` | JoystickImplementation/src/ASF/common/services/sleepmgr/sleepmgr.h:137-190 | a lock counts one more or hangs at 255, an unlock one less or hangs at 0, and other modes are left alone |
| `SleepLocks.FirstLocked` | JoystickImplementation/src/ASF/common/services/sleepmgr/sleepmgr.h:200-220 | every shallower mode is unlocked and the mode found is locked |
| `SleepLocks.StartedKeeps` | JoystickImplementation/src/ASF/common/services/sleepmgr/sleepmgr.h:117-127 | the state after sleepmgr_init satisfies it |
| `SleepLocks.SleepDepth` | JoystickImplementation/src/ASF/common/services/sleepmgr/sleepmgr.h:200-220 | the scan stays in the table; the mode is no deeper than IDLE while udd_b_idle, and exactly what the driver needs if nobody else holds a lock |
| `SleepLocks.SleepsAsWanted` | JoystickImplementation/src/ASF/xmega/drivers/usb/usb_device.c:157-166 | over every run from the start without other locks: the device sleeps in IDLE while awake, in the suspend mode once the bus is suspended, and in the deepest mode while the driver is off |
| `SleepLocks.RunWants` | JoystickImplementation/src/ASF/xmega/drivers/usb/usb_device.c:818-833 | udd_b_idle follows the last of attach, resume, remote wakeup, suspend and disable |
| `SleepLocks.EnableBalancesIff` | JoystickImplementation/src/ASF/xmega/drivers/usb/usb_device.c:481-492 | udd_enable keeps the balance if and only if the driver is off |
| `SleepLocks.DoubleEnableLeaks` | JoystickImplementation/src/ASF/xmega/drivers/usb/usb_device.c:481-505 | enabled twice and disabled once, a lock on IDLE remains |
| `SleepLocks.SleepManager.constructor` | JoystickImplementation/src/ASF/common/services/sleepmgr/sleepmgr.h:117-127 | all counts 0 but that of the deepest mode |
| `SleepLocks.SleepManager.LockMode` | JoystickImplementation/src/ASF/common/services/sleepmgr/sleepmgr.h:137-158 | one more lock, or the endless loop at 255 |
| `SleepLocks.SleepManager.UnlockMode` | JoystickImplementation/src/ASF/common/services/sleepmgr/sleepmgr.h:169-190 | one lock less, or the endless loop at 0 |
| `SleepLocks.SleepManager.GetSleepMode` | JoystickImplementation/src/ASF/common/services/sleepmgr/sleepmgr.h:200-220 | the shallowest locked mode |
| `SleepLocks.UsbPower.SleepMode` | JoystickImplementation/src/ASF/xmega/drivers/usb/usb_device.c:157-166 | while the driver is on, the balance of the locks is kept, and the device sleeps no deeper than IDLE if that is asked for |
| `SleepLocks.UsbPower.Enable` | JoystickImplementation/src/ASF/xmega/drivers/usb/usb_device.c:481-488 | from a balanced state with the driver off: the balance is kept, and the device sleeps no deeper than IDLE |
| `SleepLocks.UsbPower.SendRemoteWakeup` | JoystickImplementation/src/ASF/xmega/drivers/usb/usb_device.c:567-576 | the balance is kept, and the device sleeps no deeper than IDLE |
| `SleepLocks.UsbPower.Disable` | JoystickImplementation/src/ASF/xmega/drivers/usb/usb_device.c:494-507 | from a balanced state with the driver on: the balance is kept and the driver holds no lock any more |

The steps in `EndpointSteps` and `ControlSteps` carry no contracts of their own beyond ranges: the
methods of `UddEndpoint` and `ControlEndpoint` are proved equal to them, and what they achieve is
stated by the lemmas over steps and runs above.

## Left out

- Register and pin access, clocks, oscillators, LEDs, start-up code and assembly: straight-line input and output.
- `jstk_readMask`, `jstk_ledMask` and the test-mode branch of `joystick`: finite tables about LEDs.
- High-speed branches, test modes, BOS descriptors, vendor requests and extra strings: not compiled in this build.
- EEPROM and flash operations the buffer writers do not use (split EEPROM write, erase all, CRC, fuses, lock bits).
- The transfer FIFO and its decoding, start-of-frame handling, and the hooks called on suspend, resume and remote wakeup.
- Host scheduling and liveness of the host, packet errors, and electrical behaviour.
- Aliasing: payloads and job buffers are values of the model, so overlapping buffers are not captured; the report
  buffer of the HID interface is compared with the job in flight instead.
- NvmFlash.FlashController.UserSigWriteBuffer: is modelled for the writes whose loop ends;
  NvmFlash.UserSigEndsIff says which these are.
- NvmFlash.FlashController.WriteThenRead: requires an erased page buffer on entry, as the write routines leave
  it; NvmFlash.FoundIsHarmlessIff says what another buffer does.
- SetupDecoder.Decoder.ReqStdSet: the halts and aborts of endpoint requests are taken as answers of the driver;
  their effect is modelled by the steps of EndpointSteps.
