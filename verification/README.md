# Verified models of ESP-IDF components

The firmware is glue over the vendored ESP-IDF. This project models the ESP-IDF components
with the most intricate state and proves what they are for. Each component is independent of the
others; `Machine` holds the shared vocabulary and `Modular` facts about remainders.

| component | files | what is proved |
|---|---|---|
| application trace | `RingBuffers`, `TraceBuffers` | a shrinking ring, two swapped blocks and an overflow ring together are one FIFO of packets |
| event loop | `EventTree`, `EventOrder`, `EventLoop` | a three-level structure of nodes, updated in place, is a flat list in registration order |
| static-init guards | `Guards` | mutual exclusion, wake-up and progress over all interleavings |
| OTA writer | `OtaFlash`, `OtaUpdate`, `OtaWriter` | the flash does not depend on how the image was cut, with the one mode in which it does pinned down exactly |
| OTA boot selection | `OtaBoot`, `OtaNext` | a switch is right and survives power loss; update targets go round |
| console | `ArgSpec`, `SplitArgv` | the in-place splitter computes a grammar, and printing is its inverse |
| HMAC | `HmacBlocks` | the blocks handed to the peripheral are the standard padding |
| eFuse tables | `EfuseTable` | what a verified table guarantees |
| RTC time | `RtcTime` | exact, monotone, bounded lag |
| ETM channels | `EtmPool` | a reference-counted pool under interleaving |

## How to read the models

Components that the program updates in place are classes, and each method's contract ties its
new state to a value-level specification (`TraceBufs.Stream`, `EventTree.Add`, `OtaFlash.WriteSpec`,
`ArgSpec.Split`, `HmacBlocks.Told`); the main results are theorems about these specifications.
The two components in which several tasks interleave (`Guards`, `EtmPool`) are transition systems
whose steps are the stretches between two points where another task can run.

Inputs from outside are parameters: the answers of the trace hardware and its timeouts (any finite
list, after which swaps fail and time is up), the number of allocations that still succeed, the
flash contents, the CRC function and the tick counter.
32-bit and 64-bit arithmetic is written out where the result can differ.

## Where the code does less than one might expect

- A ring request so large that `wr + size` or `rd + size` wraps at 2^32 is accepted with a region outside the
  storage (`RingBuffer.Produce`, `RingBuffer.Consume`); requests that fit a C object never do this.
- With two or more guards in use a waiter can be left without a token although its guard is ready
  (`Guards.TwoGuardsCanStarve`, `Guards.StarvesExactlyWithTwoGuards`); `Guards.NoLostWakeup` is what remains true.
- OTA in sequential mode with encryption depends on the cut: `OtaUpdate.SequentialUpdate` says for which
  lengths the last bytes are lost, `OtaUpdate.CutMatters` is an example.
- Announced image sizes within 4095 of 2^32 (other than the two special values) wrap when they are rounded up:
  esp_ota_begin succeeds, nothing is erased, and no update puts its image on the flash
  (`OtaUpdate.AnnouncedIsErased`, `OtaWriter.Update`).
- Near 2^32 the search for the next sequence number ends with a number for another slot, or never
  (`OtaBoot.SearchSucceeds`).
- The HMAC bit length is computed in 32 bits, so the padding is standard only below 2^29 - 64 bytes
  (`HmacBlocks.StandardExactlyWhenItFits`).
- The boot slot switch does not take effect when the next sequence number is the erased mark
  (`OtaBoot.Board.SwitchBoots`), or, in some cases, when it is 0.
- A custom eFuse table checked alone is not protected against overlaps of fields whose parents are in
  another table (`EfuseTable.CustomTableAlone`), and two dotted names may share one C identifier
  (`EfuseTable.SameIdentifier`).

## Model

| member | source | states |
|---|---|---|
| RingBuffers.RingBuffer.Produce | esp-idf/components/app_trace/app_trace_util.c:87-127 | A request is served exactly if some piece of free memory of that length can follow the queue, at the writer or at the start by wrapping early, with reader and writer kept apart; the region handed out lies in the storage, holds no live byte and becomes the tail of the queue; a refusal changes nothing; a size whose 32-bit sum wraps is wrongly accepted with a region outside the storage and moves the writer back |
| RingBuffers.Ring.LargestFreeIsLargest | esp-idf/components/app_trace/app_trace_util.c:87-127 | The case split over reader, writer and shrunk size finds the longest piece that can follow the queue: a length is within it if and only if some region of that length keeps every queued byte addressable |
| RingBuffers.RingBuffer.Consume | esp-idf/components/app_trace/app_trace_util.c:129-153 | A request is served exactly when so many of the oldest bytes lie next to each other, and yields the oldest bytes in order and removes just these, never leaving less room for a producer; a size whose 32-bit sum wraps is wrongly accepted and moves the reader back |
| RingBuffers.Ring.GrownQueue | esp-idf/components/app_trace/app_trace_util.c:87-127 | Independently of which branch moved the control words: if old bytes keep their addresses and the new ones are the tail, the queue grew by exactly the region handed out |
| RingBuffers.Ring.ServedAtZero | esp-idf/components/app_trace/app_trace_util.c:100-114 | Wrapping early (shrinking the logical size to the write position, or resetting an empty buffer) keeps every live byte at its place in the queue |
| RingBuffers.Ring.ShrunkQueue | esp-idf/components/app_trace/app_trace_util.c:129-153 | Consuming, also when it restores the full size, yields the front of the queue and leaves the rest in order |
| RingBuffers.Ring.FilledQueue | esp-idf/components/app_trace/app_trace_util.c:87-153 | Filling a region after it was handed out changes these bytes of the queue and no other |
| RingBuffers.RingBuffer.ReadSize | esp-idf/components/app_trace/app_trace_util.c:155-166 | The read size is 0 exactly when the queue is empty and never more than what is queued |
| RingBuffers.RingBuffer.ReadSizeIsLargest | esp-idf/components/app_trace/app_trace_util.c:155-166 | The read size is the length of the longest piece that lies together at the front of the queue |
| RingBuffers.RingBuffer.WriteSize | esp-idf/components/app_trace/app_trace_util.c:168-182 | What it announces can always be produced; it is 0 on an unshrunk buffer only when that is full |
| RingBuffers.RingBuffer.WriteSizeIsLargest | esp-idf/components/app_trace/app_trace_util.c:168-182 | The write size is the length of the longest piece that can follow the queue at the write position |
| TraceBuffers.DownWrite | esp-idf/components/app_trace/app_trace_membufs_proto.c:194-220 | Exactly min(size, capacity - 1 - used) host bytes are stored, in order; the assertions on the ring cannot fail |
| TraceBuffers.PumpPending | esp-idf/components/app_trace/app_trace_membufs_proto.c:116-136 | Draining moves the front of the pending ring to the new block, loses nothing, and stops early only when the block is full |
| TraceBuffers.TraceBufs.Swap | esp-idf/components/app_trace/app_trace_membufs_proto.c:80-140 | A successful swap hands exactly the current block to the host, splits what was pending between new block and ring (the block is full if anything is left), and takes over as much of what the host sent with this swap as the down buffer has room for; a failed one leaves everything as it was; neither leaves less room for a packet |
| TraceBuffers.TraceBufs.EnterBlock | esp-idf/components/app_trace/app_trace_membufs_proto.c:100-115 | The delivery of a swap is the body of the block the host left for it, if the host says that it sent something, and the down buffer keeps its first min(size, room) bytes |
| TraceBuffers.OneMoreDelivery | esp-idf/components/app_trace/app_trace_membufs_proto.c:100-115 | Recording a delivery keeps every delivery tied to the block of its swap and appends the kept bytes |
| TraceBuffers.TraceBufs.SwapWait | esp-idf/components/app_trace/app_trace_membufs_proto.c:142-153 | Retrying fails only after a failed attempt with no time left, and then has changed nothing |
| TraceBuffers.TraceBufs.WaitForBuffer | esp-idf/components/app_trace/app_trace_membufs_proto.c:222-259 | The swap-and-retry allocation appends the reserved bytes at the end of the stream or leaves the stream alone; it is refused only if the time is up or neither block nor ring has room |
| TraceBuffers.TraceBufs.UpBufferGet | esp-idf/components/app_trace/app_trace_membufs_proto.c:276-337 | A packet is reserved as the youngest bytes of the stream and gets its header, or the stream is unchanged; what fits is granted without a swap unless bytes are pending, and what could fit at all is refused only for lack of time or room |
| TraceBuffers.TraceBufs.UpBufferPut | esp-idf/components/app_trace/app_trace_membufs_proto.c:339-348 | Putting sets the written size of exactly this packet and touches no other byte of the stream |
| TraceBuffers.TraceBufs.Write | esp-idf/components/app_trace/app_trace.c:266-303 | One complete packet joins the stream, or nothing does; a swap is tried first when bytes are pending and otherwise only for what does not fit; what fits without a swap is accepted, and a payload that could be sent is refused only for lack of time or room |
| TraceBuffers.TraceBufs.Flush | esp-idf/components/app_trace/app_trace_membufs_proto.c:350-372 | Terminates; loses nothing; fails only after a failed swap with no time left; a completed flush has handed over exactly the bytes of the stream in front of what it may leave, with minimum 0 all of them, the pending ones included |
| TraceBuffers.TraceBufs.DownBufferGet | esp-idf/components/app_trace/app_trace_membufs_proto.c:155-186 | As many bytes as are there, up to the size asked for, are read, and they are the next ones of what was taken over from the blocks the host left, in order; there is nothing to read only if the host sent nothing and the time is up; swaps forced on the way lose no trace byte |
| TraceBuffers.TraceBufs.Run | esp-idf/components/app_trace/app_trace_membufs_proto.c:80-372 | Conservation in both directions: after any sequence of writes, flushes and reads, with any swap failures and timeouts, blocks sent, current block and pending ring are the packets written, in order; and the bytes read with those not yet read are the kept bytes of the host blocks, in order |
| TraceBuffers.TraceParses | esp-idf/components/app_trace/app_trace_membufs_proto.c:276-348 | A reader that knows only the two 16-bit header fields recovers from the trace exactly the packets written, with their core and payload, in order |
| TraceBuffers.ParsePacket | esp-idf/components/app_trace/app_trace_membufs_proto.c:276-337 | The header stands for core and size of the packet: decoding one packet yields its payload and leaves the rest |
| EventOrder.DispatchFilters | esp-idf/components/esp_event/esp_event.c:582-610 | Dispatch over the three levels is the filter of the tree's entries by the event |
| EventOrder.AddInserts | esp-idf/components/esp_event/esp_event.c:165-323 | The node-creation rules put a new handler where no later entry shares an event with it |
| EventOrder.RemoveDrops | esp-idf/components/esp_event/esp_event.c:325-399 | Unregistering removes exactly the instance, keeps the order of the others and leaves no empty node, although success is not always reported upwards |
| EventOrder.RegisterRefines | esp-idf/components/esp_event/esp_event.c:695-758 | One registration keeps tree and flat list indistinguishable for every event |
| EventOrder.UnregisterRefines | esp-idf/components/esp_event/esp_event.c:773-807 | One unregistration keeps tree and flat list indistinguishable for every event |
| EventOrder.DispatchIsRegistrationOrder | esp-idf/components/esp_event/esp_event.c:165-399 | After any run of registrations and unregistrations an event runs exactly the live matching handlers, each once, in registration order; ids are unique in a base node and no node is empty |
| EventTree.OverlapMeaning | esp-idf/components/esp_event/esp_event.c:582-610 | Two registrations overlap exactly when some event runs both |
| EventLoop.BaseNode.Add | esp-idf/components/esp_event/esp_event.c:213-265 | Updating the linked nodes in place does what the tree function says; failed allocations leave them unchanged |
| EventLoop.LoopNode.Add | esp-idf/components/esp_event/esp_event.c:267-323 | The same one level up, with the decision whether a base node of its own is needed |
| EventLoop.BaseNode.Remove | esp-idf/components/esp_event/esp_event.c:351-374 | The removal loop over the id nodes, which goes on after a removal that does not empty the node, equals the tree function |
| EventLoop.LoopNode.Remove | esp-idf/components/esp_event/esp_event.c:376-399 | The removal loop over the base nodes equals the tree function; every other node is untouched |
| EventLoop.Loop.Register | esp-idf/components/esp_event/esp_event.c:695-758 | Refused as invalid exactly for any base with a specific id; otherwise every event with this base (or any) and this id (or any) gains the handler at the end of those it runs and no other event gains anything, or there is no memory and nothing changes; tree and list stay indistinguishable |
| EventLoop.Loop.Unregister | esp-idf/components/esp_event/esp_event.c:773-807 | The instance named by base, id and context is taken out of what every event of that base and id runs and nothing else is, in unchanged order; any base with a specific id is refused |
| EventLoop.DropTakesOut | esp-idf/components/esp_event/esp_event.c:325-399 | Of the live registrations exactly the one with this base, id and context is taken out |
| EventLoop.Loop.Run | esp-idf/components/esp_event/esp_event.c:582-610 | The handlers an event runs are the matching live registrations, oldest first |
| Guards.Safety | esp-idf/components/cxx/cxx_guards.cpp:66-211 | In every interleaving of any number of tasks and guards: one initialiser per guard, no guard both ready and pending, one mutex holder, waiting count = tasks in the wait section, no assertion fails |
| Guards.Answers | esp-idf/components/cxx/cxx_guards.cpp:113-168 | In every run acquire answers 1 exactly to the task that has to initialise the guard, which is the only one, and 0 only if the guard is ready |
| Guards.OnlyReleaseMakesReady | esp-idf/components/cxx/cxx_guards.cpp:66-111 | In a run without a release of a guard that was not ready, it never becomes ready |
| Guards.Ends | esp-idf/components/cxx/cxx_guards.cpp:66-111 | A release or abort of the initialising task, run alone, ends the initialisation, makes the guard ready only in the case of a release, and gives one token for every waiter |
| Guards.ReadyIsFinal | esp-idf/components/cxx/cxx_guards.cpp:113-168 | A ready guard stays ready and no acquire returns 1 for it again |
| Guards.NoLostWakeup | esp-idf/components/cxx/cxx_guards.cpp:66-111 | There is a token for every waiter that has none when nothing is being initialised and nobody is signalling; and, with any number of guards, each time a release or abort is about to give the mutex back |
| Guards.NoLostWakeupOneGuard | esp-idf/components/cxx/cxx_guards.cpp:66-211 | With one guard in use the same holds whenever that guard is not pending |
| Guards.Progress | esp-idf/components/cxx/cxx_guards.cpp:66-211 | If every task inside the guard functions is blocked, some task still has to end an initialisation |
| Guards.NoDeadlockOneGuard | esp-idf/components/cxx/cxx_guards.cpp:66-211 | No deadlock with one guard that no task acquires while it initialises it: if every task inside is blocked, the initialising task is outside the guard functions |
| Guards.TwoGuardsCanStarve | esp-idf/components/cxx/cxx_guards.cpp:74-94 | For any two guards and any two tasks there is a run after which one guard is ready, a task waits for it without a token, and every task inside is blocked for good |
| Guards.StarvesExactlyWithTwoGuards | esp-idf/components/cxx/cxx_guards.cpp:66-211 | With at least two tasks: no waiter of a guard that is not pending is ever without a token if and only if at most one guard is in use |
| OtaUpdate.EraseExtent | esp-idf/components/app_update/esp_ota_ops.c:206-220 | The erase ahead of a write covers exactly the sectors from the end of the current one to the end of the last one touched |
| OtaUpdate.EraseReach | esp-idf/components/app_update/esp_ota_ops.c:206-220 | Although the carried bytes are not counted, the erase reaches as far as the write programs |
| OtaUpdate.SequentialWritesAreClean | esp-idf/components/app_update/esp_ota_ops.c:206-262 | Every byte of a sequential write lands on flash erased in the session and not written since, and no erase covers a written byte |
| OtaUpdate.SequentialRunIsClean | esp-idf/components/app_update/esp_ota_ops.c:206-262 | The same for every write of a whole run, however the image is cut |
| OtaUpdate.SequentialStep | esp-idf/components/app_update/esp_ota_ops.c:187-270 | A sequential write keeps: written bytes read back, the flash up to the sector end is erased, the rest untouched |
| OtaUpdate.WritesSucceed | esp-idf/components/app_update/esp_ota_ops.c:187-270 | However the image is cut, the writes succeed exactly if it starts with the magic byte, also when the first chunks are empty |
| OtaUpdate.UpFrontUpdate | esp-idf/components/app_update/esp_ota_ops.c:187-358 | With a range erased up front, every update of an image that fits the partition succeeds, encrypted or not and however it is cut, and the flash then starts with the image if and only if the image fits the erased range |
| OtaUpdate.SequentialUpdate | esp-idf/components/app_update/esp_ota_ops.c:187-358 | In sequential mode every update of an image that fits succeeds; the flash then starts with the image unless encryption is on and, with L its length and B the bytes before the last chunk, 0 < L%16 <= B%16 and L - L%16 is a sector end; then it does not, but still starts with the whole blocks of the image |
| OtaUpdate.TailByLengths | esp-idf/components/app_update/esp_ota_ops.c:206-262 | How far a run has erased and programmed depends only on the length of the image and of what came before the last chunk |
| OtaUpdate.CutMatters | esp-idf/components/app_update/esp_ota_ops.c:344-358 | One image, two cuts: written at once it is on the flash, written as 4095 and 16 bytes it is not |
| OtaUpdate.BeginStarts | esp-idf/components/app_update/esp_ota_ops.c:127-185 | Each way of beginning establishes the start state of its mode, for every announced size, and fails exactly if the rounded size exceeds the partition |
| OtaUpdate.UnknownSizeErasesAll | esp-idf/components/app_update/esp_ota_ops.c:161-163 | With size 0 or unknown the whole partition is erased |
| OtaUpdate.AnnouncedIsErased | esp-idf/components/app_update/esp_ota_ops.c:159-170 | The announced size is rounded up to sectors, except for sizes from 2^32 - 4095 to 2^32 - 3, for which the rounding wraps and nothing is erased |
| OtaWriter.Flash.Erase | esp-idf/components/esp_partition/partition_target.c:117-135 | An aligned range inside the partition is erased, any other call changes nothing |
| OtaWriter.Flash.Program | esp-idf/components/esp_partition/partition_target.c:63-86 | Programming succeeds exactly inside the partition |
| OtaWriter.OtaEntry.Begin | esp-idf/components/app_update/esp_ota_ops.c:127-185 | Beginning leaves every byte of the partition erased for size 0 or unknown, erases nothing in sequential mode and the announced size rounded up otherwise, and starts with empty counters |
| OtaWriter.OtaEntry.Write | esp-idf/components/app_update/esp_ota_ops.c:187-270 | Carry buffer, on-the-fly erase and the two flash writes amount to the one-piece write; each error is reported exactly when the one-piece write reports it, and what it leaves on the flash is stated; the carry buffer is refilled with 0xFF when it has been full |
| OtaWriter.OtaEntry.End | esp-idf/components/app_update/esp_ota_ops.c:332-375 | Ending programs the carry block once, padded with 0xFF (with 0 if it was never full before), or reports the error and leaves the flash alone |
| OtaWriter.Update | esp-idf/components/app_update/esp_ota_ops.c:127-375 | A whole update succeeds if and only if the image has the magic byte, fits, fills a block with encryption on, and the announced size fits; the flash then starts with it always for size 0 or unknown, for another size if and only if the image fits that size rounded up to sectors, and in sequential mode if and only if it does not lose its tail, with its whole blocks in any case; with encryption all flash writes are aligned blocks |
| OtaWriter.BlockThenRest | esp-idf/components/app_update/esp_ota_ops.c:222-262 | Completing the carried block and then writing the whole rest equals one write of everything that is whole |
| OtaBoot.NextSeqLeast | esp-idf/components/app_update/esp_ota_ops.c:403-448 | The next sequence number is the least one not below the active one that selects the slot, less than the slot count above it |
| OtaBoot.SearchSeq | esp-idf/components/app_update/esp_ota_ops.c:430-441 | The search in 32-bit arithmetic terminates with that least number whenever it fits 32 bits |
| OtaBoot.SearchSucceeds | esp-idf/components/app_update/esp_ota_ops.c:430-441 | The search ends with a number for the wanted slot if and only if the least such number fits 32 bits; otherwise with one for another slot, or never |
| OtaBoot.Board.PowerLossKeepsBoot | esp-idf/components/app_update/esp_ota_ops.c:377-391 | After the erase and before the write the board boots what it booted before |
| OtaBoot.Board.BootMeans | esp-idf/components/bootloader_support/src/bootloader_common_loader.c:34-120 | A slot is booted exactly if the entry with the largest number among the valid ones (checksum right, not erased, not invalid or aborted) selects it, and the default exactly if there is no such entry |
| OtaBoot.Board.SwitchBoots | esp-idf/components/app_update/esp_ota_ops.c:403-448 | A completed switch boots the chosen slot if and only if the new number is not the erased mark and is not 0 on a board whose slot count does not divide 2^32 |
| OtaBoot.Board.RunBoots | esp-idf/components/app_update/esp_ota_ops.c:377-548 | Over any run of switches, completed or cut by power loss, the board boots the slot of the last completed one |
| OtaBoot.SelectSectors.RewriteOtaData | esp-idf/components/app_update/esp_ota_ops.c:403-448 | The code erases and writes only the sector not in use, with the entry that the switch needs; an unknown slot changes nothing |
| OtaBoot.ZeroBoots | esp-idf/components/app_update/esp_ota_ops.c:521-548 | The unsigned computation on sequence number 0 selects the right slot exactly if the slot count divides 2^32 |
| OtaNext.NextUpdate | esp-idf/components/app_update/esp_ota_ops.c:588-634 | The one-pass search returns the lowest slot above the start, or the lowest of all if there is none above or the start is not an OTA slot, and reports failure exactly if there are none |
| OtaNext.SuccessorMeans | esp-idf/components/app_update/esp_ota_ops.c:588-634 | The successor used in the results below is that slot |
| OtaNext.VisitsAll | esp-idf/components/app_update/esp_ota_ops.c:588-634 | Following the result visits every OTA partition exactly once before it is back at the start |
| OtaNext.SuccessorRank | esp-idf/components/app_update/esp_ota_ops.c:606-632 | The successor is the next position, the first after the last |
| ArgSpec.RoundTrip | esp-idf/components/console/split_argv.c:33-112 | Any NUL-free arguments, empty ones included, printed bare or quoted with escapes and with any spaces between them (none needed behind a quoted one), split back into themselves, as many as there is room for |
| ArgSpec.ReadsLine | esp-idf/components/console/split_argv.c:33-112 | Whatever is written as a line of arguments, in plain and escaped characters, splits into what its pieces stand for; an escape that is not recognised stands for nothing |
| ArgSpec.ReadsUnfinished | esp-idf/components/console/split_argv.c:96-112 | An argument cut off by the end of the line, even in a quote or after an escape character, counts like a finished one |
| ArgSpec.EveryLine | esp-idf/components/console/split_argv.c:33-112 | Every NUL-free line is of one of these two kinds, so that the two results determine the splitting of every line |
| ArgSpec.ScanPieces | esp-idf/components/console/split_argv.c:45-95 | Pieces are read one by one, in both the bare and the quoted state: a plain character stands for itself, an escaped one for itself if it is a quote, space or backslash and otherwise for nothing |
| ArgSpec.ScanBound | esp-idf/components/console/split_argv.c:33-112 | Never more arguments than the array has room for before its NULL |
| SplitArgv.Split | esp-idf/components/console/split_argv.c:33-112 | The in-place loop leaves exactly the arguments of the grammar in the line as C strings, in order, with a NULL after the last pointer |
| SplitArgv.StepBuilt | esp-idf/components/console/split_argv.c:45-95 | One round of the loop keeps line and pointers in step with the five-state machine |
| SplitArgv.LastBuilt | esp-idf/components/console/split_argv.c:96-112 | Ending the line in any state terminates the last argument and the pointer array |
| HmacBlocks.Calculate | esp-idf/components/esp_hw_support/esp_hmac.c:82-129 | The commands issued are those of the protocol for the padded message, for every length |
| HmacBlocks.ToldData | esp-idf/components/esp_hw_support/esp_hmac.c:82-129 | The blocks handed over concatenate to message, 0x80, least number of zeros and bit length |
| HmacBlocks.ShortMessage | esp-idf/components/esp_hw_support/esp_hmac.c:82-94 | A message takes one block exactly if it has at most 55 bytes |
| HmacBlocks.BigEndianStandsFor | esp-idf/components/esp_hw_support/esp_hmac.c:86-91 | The length field read as a big-endian number is the length |
| HmacBlocks.StandardExactlyWhenItFits | esp-idf/components/esp_hw_support/esp_hmac.c:82-129 | This is the padding of FIPS 180-4 section 5.1.1 for message and the 64-byte key block of RFC 2104 section 2 if and only if 8*length+512 is below 2^32 |
| HmacBlocks.Protocol | esp-idf/components/esp_hw_support/esp_hmac.c:96-125 | Writes and next-block commands alternate, the padding command precedes the last write only, and a command precedes the first write exactly for messages shorter than a block |
| HmacBlocks.ZeroCountLeast | esp-idf/components/esp_hw_support/esp_hmac.c:96-125 | The number of zeros is the least that fills the block |
| HmacBlocks.ChopConcat | esp-idf/components/esp_hw_support/esp_hmac.c:96-125 | Cutting the padded message into blocks undoes concatenation |
| EfuseTable.Verify | esp-idf/components/efuse/efuse_table_gen.py:118-199 | The checks accept exactly the tables in which every entry fits, no name is repeated, every prefix of a dotted name has a parent and every pair passes the overlap rule |
| EfuseTable.CheckMeans | esp-idf/components/efuse/efuse_table_gen.py:151-164 | For entries that have bits the answers of check mean: included exactly if all bits are bits of the other, apart exactly if none is |
| EfuseTable.FitsMeans | esp-idf/components/efuse/efuse_table_gen.py:418-424 | For entries that have bits the size check accepts exactly if every bit is below the size of its block |
| EfuseTable.AcceptsWellNested | esp-idf/components/efuse/efuse_table_gen.py:178-199 | For entries that have bits the overlap check accepts exactly the well nested tables: undotted entries of a block share no bit, and a dotted entry that shares a bit with another has all its bits inside the first entry for each prefix of its name |
| EfuseTable.ParentsAtDots | esp-idf/components/efuse/efuse_table_gen.py:136-148 | A dotted name has its parents exactly if there is an entry for the part in front of each of its dots |
| EfuseTable.UniqueNamesInFull | esp-idf/components/efuse/efuse_table_gen.py:118-134 | With grouped entries included, the name check accepts exactly if no name with its group number stands for two things among the names and the identifiers of the dotted names |
| EfuseTable.UniqueNamesMean | esp-idf/components/efuse/efuse_table_gen.py:118-134 | For tables without grouped entries the name check accepts exactly the tables whose names differ from each other and from the C identifiers of the dotted names |
| EfuseTable.SameIdentifier | esp-idf/components/efuse/efuse_table_gen.py:118-134 | It does not compare the C identifiers of two dotted names: a family of accepted tables with two fields of one identifier |
| EfuseTable.Sound | esp-idf/components/efuse/efuse_table_gen.py:136-199 | In an accepted table, custom or not, two entries of a block share no bit if their roots differ or both are undotted, provided each is undotted or has an entry with its root name in the block (in a table that is not custom all are); all entries end inside their block; bit counts need not be positive |
| EfuseTable.Holder | esp-idf/components/efuse/efuse_table_gen.py:136-199 | An entry that is undotted or has a root entry, and shares a bit with another, has all its bits inside an undotted entry carrying its root name |
| EfuseTable.TouchingIsInside | esp-idf/components/efuse/efuse_table_gen.py:150-199 | A dotted entry that has a root entry lies inside it whenever it touches another entry |
| EfuseTable.ExactWithoutDots | esp-idf/components/efuse/efuse_table_gen.py:136-199 | For undotted entries with positive counts the check is exact |
| EfuseTable.CustomTableAlone | esp-idf/components/efuse/efuse_table_gen.py:150-199 | That proviso is needed: any dotted entry without its parents is accepted, in a custom table, beside any undotted one that overlaps it |
| EfuseTable.ExactlyRooted | esp-idf/components/efuse/efuse_table_gen.py:150-199 | For a custom table the proviso is exact, over names and blocks alone: two entries of a block with different non-empty roots are disjoint in every accepted table with these names if and only if each is undotted or has a root entry |
| EfuseTable.CheckOverlaps | esp-idf/components/efuse/efuse_table_gen.py:178-199 | The pair loops fail exactly if some pair breaks the rule |
| RtcTime.SplitIsExact | esp-idf/components/esp_hw_support/esp_clk.c:105-157 | The 32/16-bit split equals ticks*cal / 2^19 for all 48-bit ticks and 24-bit factors |
| RtcTime.SplitDoesNotOverflow | esp-idf/components/esp_hw_support/esp_clk.c:130-145 | No intermediate result of the split overflows 64 bits |
| RtcTime.RtcClock.GetTime | esp-idf/components/esp_hw_support/esp_clk.c:105-157 | A reading adds the elapsed ticks times the current factor over 2^19 to the last one; with factor 0, or with invalid retained memory of any content, it restarts the sum |
| RtcTime.RtcClock.SetCal | esp-idf/components/esp_hw_support/esp_clk.c:159-195 | A new factor applies to later ticks only |
| RtcTime.RtcClock.Run | esp-idf/components/esp_hw_support/esp_clk.c:105-195 | Over any run of readings and calibrations, factor 0 and a start from invalid retained memory of any content included, the time lags the exact sum since the last restart by less than a microsecond per update, and is below an earlier one only after a reading with factor 0, which restarts it at 0 |
| EtmPool.ClaimSlot | esp-idf/components/esp_hw_support/esp_etm.c:125-153 | The in-place slot search takes the first free slot for the channel and changes no other, or changes nothing when the group is full |
| EtmPool.StepSafe | esp-idf/components/esp_hw_support/esp_etm.c:66-220 | No step touches a group that was freed |
| EtmPool.StepInv | esp-idf/components/esp_hw_support/esp_etm.c:66-220 | Every step of every task keeps the pool invariant |
| EtmPool.PoolIsSafe | esp-idf/components/esp_hw_support/esp_etm.c:66-220 | In every interleaving: count = channels + holders, a group exists exactly while its count is positive, no two live channels share a slot, the group of a live channel is in the pool |
| EtmPool.NothingLeaks | esp-idf/components/esp_hw_support/esp_etm.c:66-220 | When all calls are over the allocated groups are exactly those with a channel, also after failed allocations |
| EtmPool.SlotsExist | esp-idf/components/esp_hw_support/esp_etm.c:125-153 | In every interleaving a live channel has one of the slots the hardware has, and a group is full exactly if each of them holds a live channel |
| EtmPool.CreationDecides | esp-idf/components/esp_hw_support/esp_etm.c:125-202 | A creation that no other task disturbs succeeds if and only if the first group that is not full is allocated or there is memory for it; the channel is then in the first free slot of that group and nothing else is different; a failed one leaves the pool as it was |
| EtmPool.CreationEnds | esp-idf/components/esp_hw_support/esp_etm.c:125-202 | Such a creation comes to an end, whatever the pool looks like |
| EtmPool.DeletionOutcome | esp-idf/components/esp_hw_support/esp_etm.c:104-220 | A deletion that no other task disturbs removes the channel, frees its slot and its group if that has no other user, and changes nothing else |

## Left out

- The application itself (display, sensors, audio, SD card, UI) and all drivers: input and output over libraries whose code is not here.
- Application trace: gets and puts of preempted tasks that overlap; the header comment of app_trace_membufs_proto.c admits incomplete packets there. The variant without pending buffer, the SystemView host format, blocks larger than 0x8000 bytes, and runs in which the hardware never stops answering under an infinite timeout.
- TraceBuffers.TraceBufs.EnterBlock: takes host data only from a block that the host has written for this swap. The code does not check this (app_trace_membufs_proto.c:100); if the host says that it sent something without writing the block, it reads old trace bytes as a host header.
- TraceBuffers.TraceBufs.EnterBlock: assumes that the size field the host writes does not exceed the block, as the code does.
- TraceBuffers.TraceBufs.Write: what a swap could make room for may be accepted or not, depending on the hardware and on time; stated are that what fits without a swap is accepted and the only reasons for a refusal.
- Event loop: legacy registration (it overwrites per node list, so duplicates across nodes are possible), handlers that change the registry while an event is dispatched, the queue, profiling, dump and deletion of a loop. Handler nodes are elements of a sequence, so the links between them are not modelled; loop, base and id nodes are objects.
- Event loop: freed nodes are dropped from the lists but not tracked afterwards, so a use after free of a node is not expressed.
- Guards: the path before the scheduler has started, priorities and fairness; that every waiter wakes with several guards is false and is not claimed.
- OTA: image verification, rollback, anti-rollback, secure boot, flash hardware errors, the list of handles, esp_ota_abort and esp_ota_write_with_offset. A sector erase and an entry write are each one step. Offsets near 4 GiB do not wrap, since no partition is that large.
- OtaBoot.Board.RunBoots: needs room below 2^32 - 1 for the sequence numbers of the run, and an active number that is not 0 unless the slot count divides 2^32; `SwitchBoots` shows what one switch does otherwise.
- OtaBoot.SelectSectors.RewriteOtaData: needs the least number for the slot to fit 32 bits; `SearchSucceeds` shows that otherwise the search of the code does not find one.
- OTA boot selection: counting the OTA partitions and picking the default partition when no entry is valid; bootloader_common_get_active_otadata is taken as "the valid entry with the larger number".
- Console: the printer in `ArgSpec` is ours; the console only parses. Running the command is not modelled.
- HMAC: the hash, the peripheral's clocks and locks, the key and argument checks.
- eFuse: reading the CSV text, the automatic start of fields without one, the numbering of grouped entries, digests and generated headers. The code does not check that a start is not negative, so neither does `EfuseTable.Verify`.
- EfuseTable.ExactlyRooted: not for names that start with a dot, whose root name is empty.
- RTC: the checksum of the retained data is one flag; the variant that keeps no retained memory.
- RtcTime.RtcClock.SetCal: models the build with CONFIG_ESP_TIME_FUNCS_USE_RTC_TIMER (esp_clk.c:161); without it a change of the factor does not take a reading first, so that the new factor also counts the ticks since the last reading.
- RtcTime.RtcClock.Run: the retained data, once valid, stay valid during the run and the tick counter never goes back.
- ETM: the argument check and the allocation of the channel object itself; enabling and disabling channels, connecting events and tasks.
