# Verified models of the Pi 5 and RP1 drivers

These Dafny modules model the stateful cores of the driver repository and prove
what each of them keeps over whole runs. Hardware is an adversary: registers read
anything, polls may time out, engines run between any two accesses, replies may
be lost or wrong.

- `I2cStream`, `I2cProgress`, `I2cEngine`: the I2C engine. A request has one
  canonical stream of command words (combined transfers with repeated START,
  section 3.1.10 of NXP UM10204); the pump refines it whatever FIFO levels it
  sees. `I2cHandshake`: completing a request exactly once.
- `H4Stream`, `H4Transport`: Bluetooth H4 (section 2 of Vol 4 Part A of the
  Bluetooth Core Specification). Reassembly does not depend on how the stream is
  cut into reads, inverts framing, and feeds first-in first-out matching.
- `PageEntry`, `IommuTable`, `IommuTrace`, `IommuWire`, `IommuDriver`: the
  multimedia IOMMU. Exact translation, the register sequences access by access, a
  fault latch that is set for a reason and stays, and an event history in which
  memory is freed only when it is provably out of the hardware's reach.
- `V3dObjects`, `V3dBooks`, `V3dSession`: GPU buffer sessions. First-fit
  placement with guard pages, a page table exact for the live objects, and a
  cached guard verdict with the exact condition under which it agrees with the
  scan it skips.
- `GemRing`, `GemTransmit`: the Ethernet transmit ring with the DMA engine
  running concurrently. Every list is completed exactly once, and success means
  sent. `GemReceive`: the receive ring, each frame taken once and in order.
  `GemInterrupts`, `GemMiniport`: no wakeup is lost.
- `Calendar`, `Mailbox`: the firmware mailbox, its buffer ownership, and the
  calendar of the ACPI Time and Alarm Device (section 9.18 of ACPI 5.0).
- `ClockLease`, `FclkDriver`: one clock leased across two drivers with lossy
  replies.
- `Uart`: the receive ring of the BCM7271 UART, its water marks and its
  notification.
- `GpioFields`, `GpioDriver`: pin ownership of the BCM2712 and restoration of the
  boot state through packed bit fields.
- `GraphTree`, `GraphDecode`, `GraphSource`, `GraphServes`, `GraphLoad`,
  `GraphResolve`: the hardware graph (sections 2.2.3 and 2.3.3 of the Devicetree Specification v0.4):
  a validating loader with an allocation budget, sound and complete for what its
  source presents, and specifier resolution.

The models follow the code. Objects that the drivers update in place are classes
with those fields; what one call does is stated against functions on values, and
what all runs keep is proved about those. Concurrency is modelled by letting the
other party act, any number of times, at every point where the locks allow it.

## Findings

Three claims hold only under a condition; each has a counterexample and the
condition.

- The cached guard bit (`pi5-v3d/driver.c:304-309`) is right after every run of
  the GPU exactly if no live writable object names a guard frame, the trap page or
  a frame of the page table: `V3dBooks.ExposureIsExact`. Only an import can name
  one, and the driver does not compare its frames with its own. A run that ends
  with a fence, the bit set and a guard gone: `V3dSession.GuardDefeated`.
- A fatal Ethernet interrupt can stay unheeded. A DPC still queued from before a
  restart may be active when the interrupt's own DPC runs and returns at once
  (`rp1-ethernet/miniport.c:561-564`). A start lets that happen exactly if a DPC
  from before it is still to come: `GemInterrupts.StrandingIsExact`; with none,
  `GemInterrupts.FatalIsHeeded`. One such run from the reset on:
  `GemInterrupts.FatalCanBeStranded`. Ring work is never lost this way.
- A GPIO restore that fails at the broker leaves a pin an input although it
  counts as untouched, exactly if it had not been configured and boot firmware
  drives it by another function than plain output (`bcm2712-gpio/hardware.c:152-154`):
  `GpioDriver.StrayPin`, `GpioDriver.Controller.RestoreFree`.

One reading needs care:

- The unknown outcome of raising the processor clock is not latched if putting it
  back succeeds (`pi5-fclk/driver.c:308-319`): the release reads the baseline
  back, so nothing is unknown any more. `FclkDriver` counts an outcome as unknown
  until then.

## Model

| member | source | states |
|---|---|---|
| I2cStream.BuildTransfers | rp1-i2c/driver.c:306-337 | A transfer list is accepted exactly if there are 1 to the maximum number of descriptors, each usable, and all bytes fit; it is then laid out back to back in request order |
| I2cStream.StreamAt | rp1-i2c/hardware.c:59-70 | Position offset + k of the canonical stream is word k of the transfer at that offset |
| I2cStream.WordFields | rp1-i2c/hardware.c:63-65 | Payload byte, READ, RESTART and STOP of a command word are independent, for every transfer and index |
| I2cStream.StreamFraming | rp1-i2c/hardware.c:63-65 | Over a whole request: STOP on the last word only, RESTART exactly on the first word of each later transfer, READ exactly inside read transfers |
| I2cProgress.StartInv | rp1-i2c/driver.c:316-335 | The request that Begin builds satisfies the progress invariant |
| I2cProgress.ReaderExists | rp1-i2c/hardware.c:44-46 | While a byte is outstanding there is a read transfer still short of it, so the error return is unreachable |
| I2cProgress.StoreInv | rp1-i2c/hardware.c:47-49 | Storing a received byte keeps the progress invariant |
| I2cProgress.NextWord | rp1-i2c/hardware.c:60-65 | The word composed from the engine state is the next word of the canonical stream |
| I2cProgress.QueueInv | rp1-i2c/hardware.c:66-69 | Queueing it keeps the progress invariant |
| I2cProgress.OutstandingIsMissing | rp1-i2c/hardware.c:49-67 | Outstanding is the sum of queued minus received over all read transfers |
| I2cProgress.PositionsDistinct | rp1-i2c/driver.c:324-335 | Read positions are distinct, increasing and inside the request |
| I2cProgress.WritesSurvive | rp1-i2c/hardware.c:48 | Received bytes never overwrite the bytes of a write transfer |
| I2cProgress.BytesLand | rp1-i2c/hardware.c:42-50 | The j-th byte received stands in the j-th read position |
| I2cProgress.FinishedMeans | rp1-i2c/hardware.c:51-54 | A finished request has sent its whole stream and filled every read |
| I2cEngine.Engine.SeekReader | rp1-i2c/hardware.c:44-46 | The search stops at a read transfer with a requested byte missing; its failure branch is dead |
| I2cEngine.Engine.Receive | rp1-i2c/hardware.c:42-50 | Draining takes exactly the bytes waiting and lowers the outstanding count by as many |
| I2cEngine.Engine.Transmit | rp1-i2c/hardware.c:56-70 | Filling extends the words sent by a part of the canonical stream, as far as the FIFO or the receive depth allows |
| I2cEngine.Engine.Pump | rp1-i2c/hardware.c:29-76 | One call of I2cPump for any register values: error precedence, words sent, bytes taken, the whole interrupt mask, and completion |
| I2cEngine.Engine.Work | rp1-i2c/driver.c:419-432 | No pass is skipped and only completion or an error ends the loop; for any sequence of FIFO levels, a request that completes has put exactly its canonical stream on the bus and holds every received byte at its read position |
| I2cHandshake.InvStep | rp1-i2c/driver.c:287-352 | Every step of worker, cancel routine and framework, which may refuse to mark the request, keeps the handshake invariant |
| I2cHandshake.CompletedOnceAtTheEnd | rp1-i2c/driver.c:287-304 | In every interleaving a request is completed once and only when neither side will touch it again; until then somebody has a step to take |
| I2cHandshake.StepsRunOut | rp1-i2c/driver.c:439-443 | Every step lowers a measure, so each run ends |
| H4Stream.FeedConcat | cyw-bluetooth/io.c:144-184 | Reading a and then b is reading a + b: same packets, same state |
| H4Stream.ChunksDoNotMatter | cyw-bluetooth/io.c:144-184 | Reading any list of chunks is reading their concatenation |
| H4Stream.SplitsAgree | cyw-bluetooth/io.c:144-184 | Two splits of one byte stream give the same packets and end in the same state |
| H4Stream.ReadsOneFrame | cyw-bluetooth/io.c:150-181 | A framed packet is read back as that packet |
| H4Stream.ReadsFrames | cyw-bluetooth/io.c:144-184 | Any sequence of framed packets is read back as that sequence |
| H4Stream.ReadingIsLossless | cyw-bluetooth/io.c:144-184 | While no error is reported, the stream is exactly the frames of the packets produced and then the bytes held |
| H4Stream.AcceptedIsPrefix | cyw-bluetooth/io.c:150-171 | A stream without error is a prefix of well-formed frames |
| H4Stream.PrefixIsAccepted | cyw-bluetooth/io.c:150-171 | No prefix of well-formed frames is an error |
| H4Stream.BrokenExactly | cyw-bluetooth/io.c:150-171 | The protocol error is reported exactly for streams that no packets could have begun with |
| H4Stream.NextReadStopsInPacket | cyw-bluetooth/io.c:306-308 | The next read is nonempty, fits the buffer and never extends past the packet being assembled |
| H4Stream.PacketsSpelled | cyw-bluetooth/io.c:157-171 | The packets are exactly the events and data packets spelled out byte by byte, length fields in their places and byte order |
| H4Transport.ValidatedFramesReadBack | cyw-bluetooth/Fdo.c:979-997 | HCIContextValidate accepts exactly the event and data packets whose frame the reader hands back unchanged |
| H4Transport.MatchConserves | cyw-bluetooth/io.c:537-540 | Matching two heads conserves packets and requests in order |
| H4Transport.FifoRun | cyw-bluetooth/io.c:528-556 | Over every interleaving of arrivals, queueings and matches, completions and waiting packets are the accepted packets in order, completions and waiting requests the requests in order |
| H4Transport.FifoPairs | cyw-bluetooth/io.c:528-556 | The i-th completion pairs the i-th request with the i-th accepted packet, and as many are completed as both allow, but for matches still owed |
| H4Transport.Transport.Restart | cyw-bluetooth/io.c:558-570 | Discarding drops the prefetched packets of both lists and keeps the waiting requests |
| H4Transport.Transport.Read | cyw-bluetooth/Fdo.c:1191-1237 | A read request joins its queue in one section of the lock and is matched in another, with any arrivals, requests and matches of others in between |
| H4Transport.Transport.MatchHeads | cyw-bluetooth/io.c:528-556 | The second section: the heads of list and queue leave together, and packets and requests stay accounted for |
| H4Transport.Transport.Complete | cyw-bluetooth/io.c:524-541 | A packet joins its list unless the list is full or memory is short, and is then matched |
| H4Transport.Transport.ReadHeader | cyw-bluetooth/io.c:157-166 | The header segment: what is held afterwards is what the byte-wise reader holds |
| H4Transport.Transport.ReadPayload | cyw-bluetooth/io.c:168-181 | The payload segment, including the completion of the packet, which is lost only for want of memory or of room |
| H4Transport.Transport.Reassemble | cyw-bluetooth/io.c:144-184 | Block-wise reassembly of any read refines the byte-wise reader: same packets, same state, same error; a whole packet is lost only where memory runs out or its list is full, and then lists and queues are still in order |
| H4Transport.Transport.SizeNextRead | cyw-bluetooth/io.c:306-308 | The size of the next read is what the packet still needs; the fallback to the whole buffer is unreachable |
| PageEntry.Fields | pi5-v3d/hardware.c:69-73 | A 28-bit frame number never carries into the VALID and WRITE bits of an entry |
| IommuTable.EntryFields | pi5-iommu/hardware.c:179-184 | The entry of page i of a mapping: valid, the right permission, the right frame |
| IommuTable.WalkIsExact | pi5-iommu/hardware.c:200-211 | A walk succeeds exactly for addresses inside a mapped slot that permits the access, and yields the byte the mapping names |
| IommuTable.WalkInjective | pi5-iommu/hardware.c:200-211 | Two addresses reach the same byte only if equal, for slots backed by disjoint buffers |
| IommuTable.GuardsUnreachable | pi5-iommu/hardware.c:172-184 | The pages around a slot are never translated |
| IommuTable.UnmapUndoesMap | pi5-iommu/hardware.c:186-198 | Unmapping a slot just mapped restores the table word for word |
| IommuTable.Table.Map | pi5-iommu/hardware.c:172-184 | MmuMap succeeds exactly for a well-formed run on a free slot; otherwise the table is unchanged |
| IommuTable.Table.Unmap | pi5-iommu/hardware.c:186-198 | MmuUnmap succeeds exactly if the slot holds a mapping of that size |
| IommuTable.Table.Translate | pi5-iommu/hardware.c:200-211 | MmuWalk on the live table agrees with the mappings made and not undone |
| IommuTrace.SilentAfterFault | pi5-iommu/hardware.c:13-24 | Once the fault latch is set no register is written, nothing is exposed and no memory freed |
| IommuTrace.OnlyOurUnits | pi5-iommu/hardware.c:74-117 | Only unit 1 and the shared cache are ever written |
| IommuTrace.FreedIsOutOfReach | pi5-iommu/driver.c:105-115 | Memory is freed only if the hardware never had it, or after its names were removed and cache and TLB were then flushed and shown to be |
| IommuTrace.StaysAccounted | pi5-iommu/driver.c:204-251 | At every moment exposed memory is still reachable, or waiting for a flush, or proven flushed |
| IommuTrace.FreedOnce | pi5-iommu/driver.c:105-115 | Memory is freed only if it was handed out and not freed since |
| IommuTrace.TransferTranslates | pi5-iommu/driver.c:269-276 | The consumer is asked to transfer only after our unit was last read to be translating |
| IommuDriver.Iommu.Poll | pi5-iommu/hardware.c:43-51 | A poll either sees the bits or latches the fault, and that only after the whole number of readings with a bit still set |
| IommuDriver.Iommu.Invalidate | pi5-iommu/hardware.c:53-72 | Success means a whole sweep of the registers, the cache and then the TLB asked to flush and seen to be done, and another sweep; a failure is a register that reads otherwise or a poll that ran out |
| IommuDriver.Iommu.Check | pi5-iommu/hardware.c:26-41 | All registers of all units and the cache control are read in order; it succeeds exactly if each shows the expected value |
| IommuDriver.Iommu.CheckUnit | pi5-iommu/hardware.c:26-41 | One unit: the fault is latched exactly by the first register that reads otherwise |
| IommuDriver.Iommu.MmuBegin | pi5-iommu/hardware.c:74-103 | Success leaves the registers captured and then programmed: page-table root, trap page and window, register by register; a refusal has only read registers and names the one that deters |
| IommuDriver.Iommu.MmuEnd | pi5-iommu/hardware.c:105-117 | Success means every register of all units and the cache control reads as the session found it |
| IommuDriver.Iommu.MmuActivate | pi5-iommu/hardware.c:119-133 | Active means cache first, then our unit, and both read back; otherwise the fault latch is set, and why |
| IommuDriver.Iommu.VerifyActive | pi5-iommu/hardware.c:150-157 | Before a window closes, every register but those the hardware may change has been read and is as programmed |
| IommuDriver.Iommu.Disable | pi5-iommu/hardware.c:158-169 | Our unit is switched off and read back with its fault flags, then the cache, and a recorded device fault is latched |
| IommuDriver.Iommu.Program | pi5-iommu/hardware.c:101 | Registers 1 to 6 are written in order with the values expected |
| IommuDriver.Iommu.MmuDeactivate | pi5-iommu/hardware.c:135-170 | Success only if quiesced, with the whole sequence of readings and writes that closes a window; each failure has its reason |
| IommuDriver.Iommu.Begin | pi5-iommu/driver.c:141-164 | On success the three pages are the HAL's in order, the root entry names the second, and the hardware reads the first as root and the third as trap page with the window at 0xa00000000; a failure is refused memory, an address, a register that deters or a failed flush, and frees what was allocated |
| IommuDriver.Iommu.Allocate | pi5-iommu/driver.c:166-202 | The buffer handed out is exactly what the table translates its address to; it succeeds exactly if the session stands, the HAL has good pages and a slot and a token are left |
| IommuDriver.Iommu.Retire | pi5-iommu/driver.c:204-234 | The buffer of the token leaves the table and, if asked for, memory, after the flush succeeded; answered as complete exactly if it was retired before |
| IommuDriver.Iommu.End | pi5-iommu/driver.c:241-251 | It succeeds exactly if no buffer is left and both flushes succeed; then every register reads as Begin captured it, nothing is held and nobody owns the session |
| IommuDriver.Iommu.Execute | pi5-iommu/driver.c:253-307 | Success exactly if prepared, activated, transferred, quiesced, deactivated and intact, in that order in the history; whoever prepared is asked to quiesce; the latch is set for a reason |
| IommuDriver.Iommu.Cleanup | pi5-iommu/driver.c:493-508 | After the owner is gone every buffer and table is given back and every register restored, or the fault latch is set, for want of a guard or a flush |
| IommuDriver.Iommu.PowerDown | pi5-iommu/driver.c:468-478 | Powering down outside a session keeps the invariant |
| IommuDriver.Iommu.HistoryIsSafe | pi5-iommu/driver.c:80-251 | The whole event history of any run obeys the rules of the trace: memory freed was held and out of reach, only our units were written, nothing after the latch, transfers only while translating |
| V3dObjects.PagesApart | pi5-v3d/driver.c:525-539 | Two live objects never cover the same or a neighbouring page |
| V3dObjects.Mapped | pi5-v3d/driver.c:556-559 | Writing an object's entries keeps the table exact for all objects |
| V3dObjects.Cleared | pi5-v3d/driver.c:607-608 | Clearing them keeps the table sound while the object lives and exact once it is gone |
| V3dObjects.TranslationIsExact | pi5-v3d/driver.c:556-559 | A GPU access succeeds exactly at an address inside a live object that permits it, and reaches that object's frame |
| V3dObjects.RangeTranslates | pi5-v3d/driver.c:722-733 | Every byte of a range that ObjectRange accepts is readable, and writable exactly as asked |
| V3dObjects.PayloadUnprotected | pi5-v3d/driver.c:653-658 | No payload frame of an own object is a guard frame or the trap page, nor of an import that names no frame of the driver |
| V3dObjects.BytesUpdate | pi5-v3d/driver.c:555-612 | The byte totals follow every change of one object |
| V3dBooks.BooksInstall | pi5-v3d/driver.c:542-597 | Creation and import keep placement, table, frames and handles of all objects |
| V3dBooks.BooksClear | pi5-v3d/driver.c:599-615 | Destruction keeps them; after a failed flush the object stays listed and unmapped |
| V3dBooks.StepKeeps | pi5-v3d/driver.c:653-658 | One GPU write keeps the accounts; only payload of writable objects and the trap page change, and unless a frame is exposed what the guard scan looks at stays |
| V3dBooks.ExposureIsExact | pi5-v3d/driver.c:304-309 | What the guard scan looks at survives every run of the GPU without a fault if and only if no live writable object names a guard frame, the trap page or a frame of the page table |
| V3dBooks.ForeignUnexposed | pi5-v3d/driver.c:566-597 | Imports that name no frame of the driver expose nothing |
| V3dBooks.Attack | pi5-v3d/driver.c:590-592 | From any exposed state, a run of the GPU without a fault that undoes a guard: one write, or a forged entry and a write through it |
| V3dBooks.FreedOnce | pi5-v3d/driver.c:414-422 | The order in which a session ends gives every common buffer back exactly once |
| V3dSession.Session.constructor | pi5-v3d/driver.c:496-507 | A memory session starts with an empty table: nothing translates |
| V3dSession.Session.ObjectPlacement | pi5-v3d/driver.c:516-541 | The least page-aligned address at or above 0x101000 whose guarded range misses all others; failure exactly if serials or slots are used up or no address fits |
| V3dSession.Session.Scan | pi5-v3d/driver.c:311-326 | The full scan finds nothing exactly if every guard holds its word and the trap page is zero |
| V3dSession.Session.Guards | pi5-v3d/driver.c:300-330 | With or without the cached bit the verdict is the one the full scan would give, unless the GPU has run since the last scan with a frame exposed |
| V3dSession.Session.ObjectCreate | pi5-v3d/driver.c:542-565 | A created object is placed first-fit and mapped with its permission; its buffer is zeroed between two guards and all other memory is kept; every status exactly by size, total, slot, address, HAL, polls and guards |
| V3dSession.Session.ObjectImport | pi5-v3d/driver.c:566-597 | An imported object maps exactly the given frames; every status exactly by sizes, frames, totals, slot, address and guards |
| V3dSession.Session.ObjectDestroy | pi5-v3d/driver.c:599-615 | The object of the handle is unmapped, then forgotten and its buffer given back; a failed flush keeps its memory and faults the session; every status exactly |
| V3dSession.Session.ReadWords | pi5-v3d/driver.c:617-635 | A read returns exactly the words asked for |
| V3dSession.Session.WriteWords | pi5-v3d/driver.c:617-635 | A write changes exactly the words asked for, and no guard |
| V3dSession.Session.ObjectRange | pi5-v3d/driver.c:722-733 | A range is accepted exactly if it lies inside one object of exactly that permission |
| V3dSession.Session.CheckLists | pi5-v3d/driver.c:765-775 | A submission is accepted exactly if all its ranges lie inside suitable objects |
| V3dSession.Session.GpuRun | pi5-v3d/driver.c:653-662 | The GPU's writes land where the table, which they may themselves change, sends them; a run without fault and without an exposed frame keeps the guards |
| V3dSession.Session.ObjectTfu | pi5-v3d/driver.c:663-685 | A fence is handed out, in order, exactly if the job is accepted, fences are left, guards and polls pass and no write faults; every other outcome has its one status, and all but refusals fault the session |
| V3dSession.Session.ObjectSubmit | pi5-v3d/driver.c:760-825 | Success if and only if the lists are accepted, a fence is left, guards and polls pass, binning, if any, and rendering finish and no write faults; overflow if and only if the fences are used up; a fault of binning may show only after rendering |
| V3dSession.Session.Query | pi5-v3d/driver.c:1217-1228 | The forced rescan agrees with what the cached bit would have answered |
| V3dSession.Session.End | pi5-v3d/driver.c:385-424 | A session ends exactly if the GPU lets go and the forced scan finds every guard; then all objects are gone and every buffer is freed once |
| V3dSession.GuardDefeated | pi5-v3d/driver.c:566-597 | A run in which the cached verdict is wrong: a guard frame imported as writable, a job that writes through it, a fence, and the bit still set |
| GemRing.Words | rp1-ethernet/miniport.c:727-728 | The control word of a descriptor: length, LAST and WRAP never set USED, and the write-back keeps them apart from the error bits |
| GemRing.FlattenGrouped | rp1-ethernet/miniport.c:718-732 | The frames of each list stand together in the ring, in order, and exactly its final one carries the mark |
| GemRing.RingStart | rp1-ethernet/gem.c:126-145 | After gem_init_rings every descriptor is the CPU's |
| GemRing.HardwareStops | rp1-ethernet/miniport.c:718-729 | The hardware stops exactly at the first descriptor not handed over; a list being published never shows |
| GemRing.HardwareSends | rp1-ethernet/miniport.c:727-733 | Otherwise it sends the frame staged there and moves on, and the ring stays consistent |
| GemRing.RingStage | rp1-ethernet/miniport.c:695-710 | Filling a spare slot changes nothing that is published |
| GemRing.RingPublish | rp1-ethernet/miniport.c:718-729 | Each backward step of publishing keeps the ring consistent for a hardware that runs meanwhile |
| GemRing.RingClose | rp1-ethernet/miniport.c:730-733 | With the first descriptor in place the whole list is the hardware's |
| GemRing.RingRetire | rp1-ethernet/miniport.c:460-488 | A used descriptor at the tail has been sent and still holds its list |
| GemRing.PendingIsOutstanding | rp1-ethernet/miniport.c:391-401 | Going through the slots by index finds each outstanding list exactly once |
| GemTransmit.BooksAccept | rp1-ethernet/miniport.c:711-732 | Accepting a list keeps the accounts of frames, lists and statuses |
| GemTransmit.BooksRetire | rp1-ethernet/miniport.c:473-487 | Retiring a descriptor keeps them; the list goes back with its final one |
| GemTransmit.BooksCancel | rp1-ethernet/miniport.c:740-753 | Cancelling keeps them: cancelled lists stay in the ring |
| GemTransmit.SuccessMeansSent | rp1-ethernet/miniport.c:473-487 | A completed list's frames have gone out one after the other, padded; it is reported as a success exactly if none failed and nobody cancelled it |
| GemTransmit.Adapter.Hardware | rp1-ethernet/miniport.c:718-733 | Any number of steps of the DMA engine keep ring and accounts |
| GemTransmit.Adapter.SendDescriptor | rp1-ethernet/miniport.c:727-728 | What goes out of the buffer is the next frame in line, exactly as staged |
| GemTransmit.Adapter.Verdict | rp1-ethernet/miniport.c:684-693 | The checks on a list, in order: each status exactly, and acceptance exactly if running, linked, every frame of legal length and room for all of them |
| GemTransmit.Adapter.Stage | rp1-ethernet/miniport.c:694-710 | Staging publishes nothing, whether or not all frames can be mapped |
| GemTransmit.Adapter.Publish | rp1-ethernet/miniport.c:718-733 | Publishing backwards with the hardware running between any two stores |
| GemTransmit.Adapter.SendOne | rp1-ethernet/miniport.c:677-734 | A list is published whole or refused at once, with the exact condition and status |
| GemTransmit.Adapter.Send | rp1-ethernet/miniport.c:668-737 | The refused lists come back with exactly their reasons, the others join the line in the order given |
| GemTransmit.Adapter.Retire | rp1-ethernet/miniport.c:463-487 | A published slot without its list is impossible |
| GemTransmit.Adapter.CompleteTransmit | rp1-ethernet/miniport.c:454-491 | Everything the hardware had sent is retired; each list whose final frame is among it is completed, once, in order |
| GemTransmit.Adapter.StopHardware | rp1-ethernet/miniport.c:366-403 | A stop gives back every outstanding list exactly once, with the status it had earned, and latches the fault if the engine is stuck |
| GemTransmit.Adapter.Collect | rp1-ethernet/miniport.c:391-401 | The slots are emptied and every list found marked and returned |
| GemTransmit.Adapter.StartHardware | rp1-ethernet/miniport.c:409-426 | The rings are rebuilt only while no engine can be running |
| GemTransmit.Adapter.CancelSend | rp1-ethernet/miniport.c:740-753 | Exactly the outstanding lists with the given cancel id are marked aborted and will not be reported as successes; all keep their places and every other status stays |
| GemTransmit.Adapter.Recover | rp1-ethernet/miniport.c:622-631 | A recovery gives back every outstanding list with the reason given, and restarts at the speed given unless the engine is stuck |
| GemTransmit.Adapter.SurpriseRemoval | rp1-ethernet/miniport.c:858-874 | After a surprise removal the memory is never given back |
| GemTransmit.Adapter.Cleanup | rp1-ethernet/miniport.c:796-826 | Every list handed over has been given back, and the buffer is freed only if no engine can use it |
| GemInterrupts.InvStep | rp1-ethernet/miniport.c:181-271 | Every step of hardware, service routine, DPC and NDIS keeps the invariant, for both kinds of status register |
| GemInterrupts.IsrLeftInv | rp1-ethernet/miniport.c:254-271 | Acknowledging, masking, deferring and queueing |
| GemInterrupts.TakenInv | rp1-ethernet/miniport.c:567-574 | Taking the pending bits at the start of a DPC |
| GemInterrupts.DpcLeftInv | rp1-ethernet/miniport.c:587-600 | Owing a continuation, queueing again or unmasking at its end |
| GemInterrupts.NoLostWakeup | rp1-ethernet/miniport.c:545-601 | In every reachable state, unserviced work means an enabled latched interrupt, one about to be raised, a DPC coming or not past its recheck, or one about to unmask what is latched |
| GemInterrupts.QuietMeansIdle | rp1-ethernet/miniport.c:580-600 | When nothing is left to happen by itself, the rings hold no work |
| GemInterrupts.AssertedIsServed | rp1-ethernet/gem.c:153-158 | An asserted interrupt gets its DPC, whatever lands between the read and the acknowledgement of the status |
| GemInterrupts.PromptStep | rp1-ethernet/miniport.c:561-567 | Pending bits lose the DPC that would take them exactly in one step: a DPC returns at once because another, past its own taking, is active and none is left |
| GemInterrupts.FatalIsHeeded | rp1-ethernet/miniport.c:567-574 | In every run whose starts find no DPC queued or owed, no step drops pending bits and every unhandled fatal error is latched or has a DPC coming |
| GemInterrupts.StrandingIsExact | rp1-ethernet/miniport.c:545-574 | Starting the adapter lets some run leave a fatal error unheeded if and only if a DPC from before the start is still to come |
| GemInterrupts.FatalStranded | rp1-ethernet/miniport.c:561-567 | How, from every such state: the error is read, all goes quiet, and no recovery is requested |
| GemInterrupts.StaleReachable | rp1-ethernet/miniport.c:366-381 | Such a start is within reach: a DPC queued by an interrupt outlives the stop |
| GemInterrupts.FatalCanBeStranded | rp1-ethernet/miniport.c:545-574 | One run from the reset on that ends with a fatal error nobody will handle, the adapter up and all quiet |
| GemInterrupts.StartedInv | rp1-ethernet/miniport.c:192-202 | Starting, in its two halves, keeps the invariant |
| GemMiniport.Adapter.Interrupt | rp1-ethernet/miniport.c:254-271 | The line is claimed exactly if one of its own bits is latched and it is not masked, deferred or suppressed |
| GemMiniport.Adapter.Take | rp1-ethernet/miniport.c:560-574 | A fatal error among what is pending or latched stops the adapter and asks for recovery |
| GemMiniport.Adapter.CompleteTransmit | rp1-ethernet/miniport.c:454-491 | Unless the adapter is stopped, nothing sent is left unretired |
| GemMiniport.Adapter.Receive | rp1-ethernet/miniport.c:493-542 | Frames are taken until none is left, batch or limit is full, or the adapter is stopped, and not a frame less |
| GemMiniport.Adapter.Process | rp1-ethernet/miniport.c:577-578 | Unless stopped meanwhile, every descriptor sent by then is retired and every frame landed by then is taken, up to the 64 slots and the limit of indications |
| GemMiniport.Adapter.InterruptDpc | rp1-ethernet/miniport.c:545-601 | The DPC takes what had landed when it began, up to batch and limit, and what it finds when it looks again decides its end exactly: owe, queue again, unmask or leave; work that is left has an enabled interrupt, one about to be raised, or a further DPC to come |
| GemMiniport.Adapter.StartHardware | rp1-ethernet/miniport.c:409-426 | Start reads and acknowledges stale status, with the hardware free to raise bits in between, before it enables |
| GemMiniport.Adapter.StopHardware | rp1-ethernet/miniport.c:181-189 | Stop forgets pending bits and masks |
| GemMiniport.Adapter.RearmInterrupts | rp1-ethernet/miniport.c:205-213 | Rearming acknowledges nothing, so what arrived while masked triggers again |
| GemReceive.HomeIs | rp1-ethernet/gem.c:133-136 | An address word with its OWN and WRAP bits leads to the buffer of its own slot |
| GemReceive.RxWord | rp1-ethernet/gem.c:202-208 | The control word of a received frame, composed from length and flags: its length counts exactly with both frame bits and in range |
| GemReceive.RxRingRoom | rp1-ethernet/miniport.c:506-508 | The engine finds its slot free exactly while the ring has room |
| GemReceive.RxRingLand | rp1-ethernet/miniport.c:504-509 | A frame that lands disturbs none that waits |
| GemReceive.RxRingShows | rp1-ethernet/miniport.c:506-510 | The driver sees a frame exactly if one has landed, and then what landed |
| GemReceive.RxRingRecycle | rp1-ethernet/miniport.c:522-526 | A slot given back is as the ring was made, and only then the engine's |
| GemReceive.Receiver.Receive | rp1-ethernet/miniport.c:493-542 | With the engine running between any two accesses, the frames taken are the oldest that have landed, each once; the good ones are indicated in order, the bad and the unwanted counted apart |
| GemReceive.Receiver.TakeNext | rp1-ethernet/miniport.c:499-527 | One slot is copied, cleared and given back; the frame is as it landed |
| Calendar.YearsAddUp | pi5-mailbox/mailbox.c:104-107 | The closed form for the days before a year agrees with the leap-year rule, year by year |
| Calendar.MonthsAddUp | pi5-mailbox/mailbox.c:109-113 | The closed form for the days before a month agrees with the table of month lengths |
| Calendar.TimeToEpoch | pi5-mailbox/mailbox.c:120-144 | A time is accepted exactly if well-formed and its instant fits 32 bits, and converts to the Gregorian day count less its zone offset |
| Calendar.EpochToTime | pi5-mailbox/mailbox.c:146-159 | Every 32-bit count converts to the valid UTC time of that instant |
| Calendar.DaysRise | pi5-mailbox/mailbox.c:131-137 | Later dates have larger day numbers |
| Calendar.SecondsUnique | pi5-mailbox/mailbox.c:131-139 | Each instant has one civil time |
| Calendar.RoundTrip | pi5-mailbox/mailbox.c:120-159 | The time buffer of any 32-bit count is accepted and converts back to that count |
| Calendar.ThereAndBack | pi5-mailbox/mailbox.c:120-159 | An accepted time converts there and back to the same civil instant in UTC: the one that shows as many minutes less as its zone is ahead, and the same fields if it was UTC |
| Calendar.ZonesApart | pi5-mailbox/mailbox.c:139-142 | Two readings of a day name instants apart by as many minutes as they show apart less what their zones differ; the zone further east names the earlier |
| Calendar.SignedInverse | pi5-mailbox/mailbox.c:123 | The zone word is read in two's complement |
| Calendar.TimeUnique | pi5-mailbox/mailbox.c:146-159 | The buffer for a count is unique |
| Mailbox.RequestCarriesData | pi5-mailbox/mailbox.c:60-67 | A request carries tag, size, data and end tag where a reader of the format finds them |
| Mailbox.VerdictIsEcho | pi5-mailbox/mailbox.c:85-100 | A reply is taken exactly when it is the request for its own payload again, but for the success code and the length reported |
| Mailbox.EncodeAddress | pi5-mailbox/mailbox.c:32-40 | An encoded address is the bus alias of a physical range below 1 GiB with the channel bits free; refused exactly otherwise |
| Mailbox.Transport.WriteRequest | pi5-mailbox/mailbox.c:60-67 | After the stores the buffer holds exactly the request |
| Mailbox.Transport.Exchange | pi5-mailbox/mailbox.c:68-84 | Exactly one message is sent, with the buffer as it stands; success exactly if that very word is read in answer, anything else latches the fault |
| Mailbox.Transport.Transfer | pi5-mailbox/mailbox.c:42-102 | The word sent is the buffer's address with channel 8, the contents the request, and its own reply follows before the payload is taken; which failure it is follows from the channel; after a fault nothing is sent |
| Mailbox.Transport.TransferChecked | pi5-mailbox/driver.c:186-207 | The caller gets the payload of that reply, exactly if its selector matches; another selector faults the transport too |
| Mailbox.Transport.Release | pi5-mailbox/driver.c:448-455 | The buffer is freed unless its return is uncertain |
| Mailbox.HandsOff | pi5-mailbox/mailbox.c:69-84 | Between a send and the matching reply the CPU neither writes nor frees the buffer nor sends again |
| Mailbox.FaultIsFinal | pi5-mailbox/mailbox.c:12-19 | Nothing is sent after a fault |
| ClockLease.Origin | pi5-mailbox/driver.c:486-531 | An owned clock was claimed with its baseline, and if it counts as read back the baseline was what was read last, with no later write |
| ClockLease.ClaimedAfterReadBack | pi5-mailbox/driver.c:497-515 | A second claim comes only after the first owner read back the rate and state it found and released the clock, with no write in between |
| ClockLease.Lease.Control | pi5-mailbox/driver.c:486-531 | Claim, release, set rate and set state on one clock: status, owner and events with their values exactly, for any answers of the firmware |
| ClockLease.Lease.ClaimNow | pi5-mailbox/driver.c:497-505 | A claim reads the baseline first and takes the clock only if both reads succeed in range |
| ClockLease.Lease.ReleaseNow | pi5-mailbox/driver.c:508-515 | A release succeeds only after rate and state were read back as the baseline |
| ClockLease.Lease.Cleanup | pi5-mailbox/driver.c:462-475 | A file that goes away owning the clock leaves it abandoned; nobody else is affected |
| ClockLease.Lease.Others | pi5-mailbox/driver.c:486-531 | Whatever other files do, a file keeps its lease and gets none, and while it owns the clock nothing happens to it |
| FclkDriver.HoldersAdd | pi5-fclk/driver.c:434 | One more holder is counted once |
| FclkDriver.HoldersRemove | pi5-fclk/driver.c:448 | One holder less is counted once |
| FclkDriver.Driver.Send | pi5-fclk/driver.c:196-231 | A control request with lossy delivery: what was granted has been done and what was refused has not, unless the outcome counts as unknown |
| FclkDriver.Driver.Restore | pi5-fclk/driver.c:366-396 | Success means the clock was put back, read back and released; anything else names what failed and makes it uncertain for good |
| FclkDriver.Driver.PutBack | pi5-fclk/driver.c:371-385 | Success means that rate and state were asked for as found and then seen, in that order |
| FclkDriver.Driver.Acquire | pi5-fclk/driver.c:398-437 | The exclusive clock goes to one file at a time, each time by a new claim at the mailbox; nothing is granted once uncertain; every refusal has its reason and changes no holder |
| FclkDriver.Driver.ClaimClock | pi5-fclk/driver.c:407-429 | The baseline is what was seen right after the claim; a claim whose outcome is unclear makes the clock uncertain; a failed first look gives the claim back |
| FclkDriver.Driver.ReleaseLease | pi5-fclk/driver.c:439-452 | A release drops one holder; the last release of the exclusive clock hands it back as found or keeps it uncertain |
| FclkDriver.Driver.Cleanup | pi5-fclk/driver.c:601-624 | A file that goes away drops all it holds; if it had changed the clock, the clock is uncertain |
| FclkDriver.Driver.SetClock | pi5-fclk/driver.c:677-723 | Success means a look, the request within the limits seen, its effect within them, and a last look; every failure has its reason, and from the moment the write is tried makes the clock uncertain |
| FclkDriver.Driver.ArmStart | pi5-fclk/driver.c:287-319 | Success means limits, claim, the rate found, the maximum asked for unless that was it, and a rate in range; a failure says which step failed and leaves the clock handed back or uncertain |
| FclkDriver.Driver.ArmRaise | pi5-fclk/driver.c:306-317 | The maximum is asked for unless it was found, and the rate is then seen to be in range |
| FclkDriver.Driver.ArmRestore | pi5-fclk/driver.c:267-285 | The processor clock is put back and released, or uncertain |
| FclkDriver.Driver.QueryStop | pi5-fclk/driver.c:587-598 | Stopping is allowed exactly while not pinned |
| FclkDriver.Driver.Stop | pi5-fclk/driver.c:563-584 | A successful stop leaves no clock owned; it is refused exactly while something is in use or the processor clock cannot be handed back |
| FclkDriver.Driver.ReleaseHardware | pi5-fclk/driver.c:527-540 | Closing the mailbox file never abandons a clock |
| FclkDriver.Driver.Unpin | pi5-fclk/driver.c:87-93 | The pin goes exactly when the driver is no longer busy |
| Uart.Put | bcm2712-uart/hardware.c:75-79 | A captured byte goes behind the others and overwrites none that is undelivered |
| Uart.Take | bcm2712-uart/driver.c:352-353 | The byte taken is the oldest undelivered one |
| Uart.OneAnswer | bcm2712-uart/driver.c:387-395 | Between any two answers, a Ready callback or a cancellation that returned TRUE, the notification was armed again |
| Uart.Controller.InterruptMask | bcm2712-uart/hardware.c:44-53 | RTS and the receive interrupt are on exactly while open, not paused and not working around the erratum |
| Uart.Controller.Capture | bcm2712-uart/hardware.c:65-87 | At most 64 bytes enter the ring in order; none that came in is lost, the ring never overflows and the peer is stopped at the high-water mark |
| Uart.Controller.Store | bcm2712-uart/hardware.c:75-79 | The oldest byte of the FIFO goes behind the others; what came in was captured in order or still waits |
| Uart.Controller.Receive | bcm2712-uart/driver.c:345-359 | The bytes delivered are the oldest that came in, in order, as many as asked for or all there are; the peer goes on exactly below the low-water mark |
| Uart.Controller.Service | bcm2712-uart/driver.c:297-315 | One interrupt cause: received bytes are captured, a transmit cause becomes pending, and an empty timeout stops the peer |
| Uart.Controller.Isr | bcm2712-uart/driver.c:290-319 | Up to eight causes are served in order; an armed notification becomes pending exactly if bytes are in the ring, and a DPC is queued exactly for what is pending |
| Uart.Controller.Dpc | bcm2712-uart/driver.c:321-341 | Ready, transmit and erratum timer are committed exactly if armed and pending |
| Uart.Controller.RxEnable | bcm2712-uart/driver.c:378-385 | Arming with bytes in the ring makes the notification pending |
| Uart.Controller.RxCancel | bcm2712-uart/driver.c:387-395 | A cancellation returns TRUE exactly if no Ready has been committed |
| Uart.Controller.Purge | bcm2712-uart/driver.c:418-426 | A receive purge starts an empty stream; otherwise nothing of it changes |
| Uart.Controller.Open | bcm2712-uart/driver.c:213-234 | An open starts an empty stream with the peer allowed to send |
| Uart.Controller.Close | bcm2712-uart/driver.c:236-245 | A closed port holds RTS down and forgets the stream |
| Uart.Controller.QuirkTimer | bcm2712-uart/driver.c:559-573 | After the erratum what has come in is captured, the peer is let go, and an armed notification with bytes becomes pending |
| GpioFields.ReadsBack | bcm2712-gpio/hardware.c:9-15 | A field of a 32-bit register reads back what was written to it |
| GpioFields.ReadsSame | bcm2712-gpio/hardware.c:11-15 | Every field apart from the one written reads as before |
| GpioFields.WriteElsewhere | bcm2712-gpio/hardware.c:11-15 | The same for fields anywhere in the register file |
| GpioFields.FieldsMapped | bcm2712-gpio/layout.c:4-35 | Every field of every pin, on both revisions and both blocks, lies within one mapped register |
| GpioFields.FieldsDisjoint | bcm2712-gpio/layout.c:4-35 | No two fields overlap, neither of two pins nor a pin's own two |
| GpioDriver.MuxWrite | bcm2712-gpio/hardware.c:11-15 | Writing a pin's mux changes nothing else of any pin |
| GpioDriver.PullWrite | bcm2712-gpio/hardware.c:11-15 | Writing a pin's pull changes nothing else of any pin |
| GpioDriver.Controller.WriteData | bcm2712-gpio/hardware.c:97-113 | Levels change only for valid pins, and not at all if the broker fails |
| GpioDriver.Controller.Configure | bcm2712-gpio/hardware.c:164-183 | Whatever the pin was, it is afterwards as asked for, and no other pin has changed; a pin that drives as a plain output and is to drive never lets go meanwhile |
| GpioDriver.Controller.PullReads | bcm2712-gpio/hardware.c:175-178 | In the register, pulling up reads 2, pulling down 1, no resistor 0 and the default what the boot left |
| GpioDriver.Controller.Restore | bcm2712-gpio/hardware.c:143-163 | A pin gets exactly the given state, level and trigger included; if its level cannot be set, only its direction may have changed |
| GpioDriver.Controller.RestoreFree | bcm2712-gpio/driver.c:200-211 | Pins nobody owns go back to their boot state; a failure leaves at most one pin astray, exactly if it was untouched and driven at boot by another function than plain output |
| GpioDriver.StrayPin | bcm2712-gpio/driver.c:408-418 | That condition is needed: two pins leave a function, the broker fails for the second, and a second try leaves the first away from its boot state |
| GpioDriver.Controller.MaskOf | bcm2712-gpio/hardware.c:184-198 | A pin list is accepted exactly if nonempty, distinct, valid and of bank 0 |
| GpioDriver.Controller.CanClaim | bcm2712-gpio/driver.c:212-225 | Claimable exactly if started, the pull is possible and the boot function does not object |
| GpioDriver.Controller.Connect | bcm2712-gpio/driver.c:227-248 | A connection succeeds exactly if the pins are named well, claimable and held by nobody incompatibly, and configures exactly those; refusals say which test failed |
| GpioDriver.Controller.Disconnect | bcm2712-gpio/driver.c:250-260 | Ownership of the named pins ends; unless the configuration is kept, free ones go back to boot state, level and trigger included, exactly if the broker allows |
| GpioDriver.Controller.ConnectFunction | bcm2712-gpio/driver.c:388-406 | A function succeeds exactly for claimable pins that nobody holds at all; refusals say which test failed |
| GpioDriver.Controller.DisconnectFunction | bcm2712-gpio/driver.c:408-418 | Ownership ends and free pins go back to boot state, or exactly one is reported |
| GpioDriver.Controller.EnableInterrupt | bcm2712-gpio/driver.c:280-304 | An interrupt is enabled exactly for a claimable pin that no output, function or other interrupt holds, with its trigger set; errors change nothing |
| GpioDriver.Controller.DisableInterrupt | bcm2712-gpio/driver.c:306-319 | The pin is masked and, if nobody else holds it, goes back to its boot state exactly if its level can be set |
| GpioDriver.Controller.Trigger | bcm2712-gpio/hardware.c:199-209 | Mode and polarity are accepted exactly as the hardware has them |
| GpioDriver.Controller.Snapshot | bcm2712-gpio/hardware.c:114-127 | A snapshot is the configuration as it reads |
| GpioDriver.Controller.Stop | bcm2712-gpio/driver.c:174-197 | Every pin goes back to its boot state, whoever owns it, one that cannot be set not keeping the others from it; configuration, level and trigger are remembered if asked for |
| GpioDriver.Controller.Start | bcm2712-gpio/driver.c:149-172 | After a stop that remembered, every touched pin is as it was, or the first that cannot be set is reported |
| GraphTree.Be32Inverse | pi5-graph/graph.c:9-12 | Big-endian words survive the round trip |
| GraphTree.GraphProperty | pi5-graph/graph.c:87-95 | The property found is the first of that name |
| GraphTree.PhandleUnique | pi5-graph/graph.c:185-194 | In a loaded graph a phandle names one node at most |
| GraphTree.ParentUnique | pi5-graph/graph.c:140-148 | The parent of a node is the one node whose path is the node's without its last name |
| GraphDecode.DecodeEncode | pi5-graph/graph.c:16-37 | Every list of proper arguments is read back, whatever fills the gaps |
| GraphDecode.EncodeDecode | pi5-graph/graph.c:16-37 | Nothing else is accepted |
| GraphDecode.GraphDecode | pi5-graph/graph.c:16-37 | The loop over the response agrees with the decoder those two are about |
| GraphSource.TreeExtend | pi5-graph/graph.c:139-151 | A node that fits keeps the tree well-formed |
| GraphLoad.HandledAll | pi5-graph/graph.c:185-194 | With phandles assigned the graph is well-formed and still says what the source says |
| GraphLoad.GatherStep | pi5-graph/graph.c:160-182 | One more piece of a property brings the concatenation one piece further |
| GraphLoad.Loader.Allocate | pi5-graph/graph.c:46-56 | An allocation that would exceed 16 MiB is refused; every allocation is counted and owned |
| GraphLoad.Loader.Free | pi5-graph/graph.c:67-85 | Only a live allocation is freed, so none twice |
| GraphLoad.Loader.StoreName | pi5-graph/graph.c:166-175 | A property's allocation is owned by its slot before anything can fail; its name is new in the node |
| GraphLoad.Loader.LoadProperty | pi5-graph/graph.c:156-183 | A property is the concatenation of the pieces the source gives for it; it is refused only if the source has no such property, or the name is taken |
| GraphLoad.Loader.LoadHead | pi5-graph/graph.c:125-151 | A node fits after those before it: parent earlier, path one name longer, unique, at most 64 ancestors |
| GraphLoad.Loader.TooDeep | pi5-graph/graph.c:149-151 | The walk to the root counts the ancestors |
| GraphLoad.Loader.LoadNode | pi5-graph/graph.c:124-184 | A whole node keeps the graph so far a faithful, well-formed tree, and is accepted if the source presents any graph |
| GraphLoad.Loader.LoadHandles | pi5-graph/graph.c:185-194 | Phandles are nonzero, agree between their two names, and are unique |
| GraphLoad.Loader.GraphFree | pi5-graph/graph.c:67-85 | Each allocation is freed once, and then none is left |
| GraphLoad.Loader.GraphLoad | pi5-graph/graph.c:198-211 | Success gives the one graph that the source presents, which is what its raw answers spell out; a failure for its answers means that they spell out none, one for memory that the budget or the allocator refused; failure leaves no allocation |
| GraphSource.PresentsOnce | pi5-graph/graph.c:109-196 | A source presents one graph at most |
| GraphServes.AskSays | pi5-graph/graph.c:16-44 | A question is answered with certain arguments exactly if the response is their encoding, padded in any way |
| GraphServes.NodeSays | pi5-graph/graph.c:129-138 | The head of a node is read off its answer: path, parent, owner and count, in that order |
| GraphServes.RestSays | pi5-graph/graph.c:156-183 | A property is pieced together exactly from chunks that carry its name, its whole length and its bytes in order |
| GraphServes.ServesIsPresents | pi5-graph/graph.c:109-196 | In raw answers, argument by argument, a source serves a bounded well-formed graph that carries its big-endian phandles, if and only if it presents that graph to the loader |
| GraphSource.NextFits | pi5-graph/graph.c:129-151 | The next node of a presented graph fits after those read so far, so no check of a node can fail |
| GraphLoad.WantedHandles | pi5-graph/graph.c:185-194 | The phandles of a presented graph are those that its nodes will get |
| GraphLoad.Loader.LoadInfo | pi5-graph/graph.c:114-121 | Loading goes on exactly if functions, schema, size and layout are as required |
| GraphResolve.ParseEncode | pi5-graph/graph.c:253-273 | A list of entries is read back as it was written |
| GraphResolve.EncodeParse | pi5-graph/graph.c:253-273 | Only encodings of lists of proper entries can be read |
| GraphResolve.ReadableExactly | pi5-graph/graph.c:253-273 | A property has one reading at most, and one exactly if it encodes some list |
| GraphResolve.ReadFirst | pi5-graph/graph.c:254-268 | One entry: phandle, provider, its cell count, its arguments |
| GraphResolve.CountIs | pi5-graph/graph.c:261-267 | A provider takes as many arguments as its property says in one big-endian cell, at most 16, and none where no property is named |
| GraphResolve.GraphResolve | pi5-graph/graph.c:241-277 | Index k selects exactly entry k; null or out of range is not found; any malformed entry makes the query invalid, even after the match |

## Left out

- WDF, NDIS, SerCx2, SpbCx and GpioClx plumbing: device creation, resource parsing, buffer retrieval, registry diagnostics, command-line tools.
- Physical time and memory barriers as memory-model effects: polls and deadlines succeed or expire by choice, stores take effect in program order.
- Statistics, traces and diagnostic counters of all drivers, among them AllocatedBytes of the IOMMU and V3D drivers and the per-kind frame counts of the miniport: straightforward sums.
- I2C timing arithmetic, address and speed of a target, and the copying between buffers and memory descriptor lists.
- The H4 pump's overlap of sender and completion routine: one completion is processed fully before the next read is sized. QueueCount, which WDF may leave stale, is replaced by the queue itself.
- H4Transport.Transport.Complete: a packet larger than its request's buffer is taken off the list and the request fails; the completion is recorded with the packet, and `Delivered` tells whether it fitted.
- IommuDriver.Iommu.Allocate: the table memory is the mapping of slots; its words are `IommuTable`'s, where the two are proved to agree.
- IommuDriver.Iommu.Execute: the consumer's callbacks and the guard scan are outcomes, not code.
- V3dSession.Session.ObjectCreate: that the HAL hands out no frame twice is required of it.
- V3dSession.Session.GpuRun: the payload of the page table's buffer is the entries of the table, which the GPU may write like any memory; the driver's own reads of memory are of other buffers.
- V3dSession.Session.End: draining, the resets and the release of clock and power leases are one outcome. The session object is not used again; the next session starts with the handles counted on.
- V3dSession.Session.ObjectTfu: the register sequences that start a job, ObjectCopy and ObjectTile argument checks, and the legacy self-tests outside a memory session.
- GemTransmit.Adapter.Send: the reference time of a slot, which decides when a hang is assumed, and gem_copy_to_dma, which copies a frame word by word, are not modelled; NDIS hands over each list under a fresh token.
- GemMiniport.Adapter.Process: frames and descriptors are counted here; what the rings do with them is `GemTransmit`'s and `GemReceive`'s.
- GemReceive.Receiver.Receive: the packet filter is any predicate on the frame; the host's own buffers for indication, and the per-kind statistics, are left out.
- Mailbox.Transport.Transfer: word width and the one-off boot claim of the mailbox; tags other than the length exceptions are opaque.
- FclkDriver.Driver.Acquire: rates and states of the shared read-only clocks are outcomes of queries.
- Uart.Controller.Isr: line errors and wait-mask events, which are reported and do not steer reception, and transmission beyond its notification. Stopping a pending erratum timer is left to the framework's order of callbacks.
- GpioDriver.Controller.Configure: the one-bit-per-pin registers of both banks are sets of pins; the packed fields are 32-bit registers.
- GpioDriver.Controller.Start: the aggregate interrupt mask of the second-level controller.
- GraphLoad.Loader.GraphLoad: structure sizes are constants; the source's answers form a function of the question, since each question is put once. The response buffer, allocated first and freed right after loading, is a flag.
- GraphFind, whose four searches are linear scans.
- pi5-nvram, nvme, pi5-graphics, pi5-pm, pi5-board, bcm2712-platform, rp1-clocks, rp1-dma, rp1-fan, rp1-gpio, rp1-service, rp1-spi and rp1-uart: foreign code, constants, or the designs above again.
