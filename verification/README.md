# Verification of the display server's native core

A Dafny model of the parts of termux-x11's `lorie` directory, libxdmcp and libxau where correctness depends on many steps
together, with proofs for all inputs, all runs or all reachable states.

- **Deferred GPU copies** (`GpuCopy*`). The X server and the renderer share a ring of eight copies with wrapping 32-bit
  indices, a completion serial and a mutex. `GpuCopyProtocol` is a step relation over their indivisible steps; a run is any
  interleaving. `GpuCopySafety`, `GpuCopyRefs` and `GpuCopyExclusion` prove what every run keeps and where exclusion ends,
  `GpuCopyOverflow` builds a run on which a count wraps, and `GpuCopyCode` proves the code of each step against the same
  functions. `GpuCopyDrawing` follows a scheduled copy to its pixels. `GpuCopyWalks` holds stretches of steps both use.
- **Renderer buffers** (`BufferLists*`). Three lists, two threads, one owner at a time.
- **XDM-AUTHENTICATION-1 wrapping** (`Xdmcp{Des,Complement,Keys,Schedule,Wrap}`, `BlockChaining`). The Data Encryption
  Standard (FIPS 46) with block chaining; substitution and key-selection tables are arbitrary. `XdmcpDesBits` and
  `XdmcpScheduleBits` say bit by bit what the permutations, the key schedule and a round do.
- **Keysym injection** (`KeysymSearch`, `KeyEvents*`). The search over keys and modifier states, and the event generator.
- **Clipboard** (`Clipboard*`, `TextPasses`). Reply duty and text converters.
- **XDMCP messages, authority file and its lock** (`XdmcpCodec`, `XdmcpBuffers`, `AuthFile*`, `FileLock`).
- **Geometry** (`CopyGeometry`, `ViewGeometry`), over the reals.

How to read it: code that changes state is a class or a method over arrays, proved against functions on values; protocols are
step relations whose runs are sequences of states. Modifier words are the sets of their one bits; bytes and characters of
text are numbers, with masks written as ranges and remainders; cipher words are bit-vectors. Some generic lemmas take a
function that agrees with a concrete one everywhere (for instance `ReadsRecords`) instead of the concrete one; this keeps
the proofs independent of how the concrete one is computed.

Four guards of `GpuCopyProtocol.Enabled` are facts of the surrounding server: buffers are numbered from a counter and no
number is used again; a pixmap stays alive while a presentation that uses it as source is unacknowledged; no copy is
scheduled or acknowledged inside a CPU access; the screen is never opened as an auxiliary destination, nor destroyed.

Where the code does less than one might expect, the exact condition is proved:

- Exclusion of CPU and GPU needs an unacknowledged copy of each pixmap in use that is not done; the server also acknowledges
  early when a presentation is dropped or the renderer is gone, which can take the last one away (`ExclusionExactly`,
  `EarlyAckHappens`).
- A drain starts with 0 as the bound destination and attaches one only when the id differs, but 0 is the id of the first
  buffer allocated (buffer.c:130-132; the screen's is allocated at start-up, InitOutput.c:565-566): copies to it are drawn to
  whatever was attached before until another destination is bound (`BatchIsCopies`, `FirstBufferIsMissed`).
- An access that cannot map its buffer keeps the mutex (`LockBalance`, `LeakHappens`).
- A 16-bit reference count distinguishes counts up to 65536, and a run goes beyond (`ReleaseFreesExactlyAt`,
  `CountWrapsOnARun`).
- The comment on `_XdmcpWrapperToOddParity` promises odd parity; the eighth byte has it only for wrapper bytes below 128
  (`ExpandParity`).
- The comment above XdmcpUnwrap puts a key byte's seven bits low and its parity bit high; the code does the opposite, and the
  model follows the code. The comment in XauGetBestAuthByAddr lets an empty name match; the code compares names only with the
  preference list.
- lorieCheckUTF8 accepts more than well-formed text (`AcceptedIsWellFormed`), and lorieUtf8ToLatin1 reads on behind a string
  whose last character is cut short (`ReadsBehind`).
- A converted request that named no property is answered as if refused (`RefusalByProperty`).
- Giving up on the level three modifier leaves a fake Shift change in place (`GivingUpLeavesShift`, `ShiftStaysDown`).
- A lock call that gives up after creating the token blocks the lock until it is broken (`OrphanHappens`,
  `OrphanBlocksForever`). Breaking takes three system calls, so whenever there is another process it can end with two
  holders, also when nobody holds the lock (`BreakingExactly`, `BreakIsInterrupted`, `TwoBreakers`); only without interruption
  is it safe, exactly when no process is inside and none is breaking (`UninterruptedBreakIsSafe`).

`NullArrivalEnds` is about an input the program does not deliver: lorieHandleClipboardData has one caller, which stores
through the pointer before it hands it on (cmdentrypoint.cpp:391-396).

## Model

| member | source | states |
|---|---|---|
| GpuCopyProtocol.IndexTests | termux-x11/lorie/src/main/cpp/lorie/InitOutput.c:952-957 | the full test against any snapshot of the read index no older than eight entries, and the empty test, decide exactly what they mean on the unbounded counts, across wrap-around of both 32-bit indices |
| GpuCopyProtocol.StoreKeepsUnread | termux-x11/lorie/src/main/cpp/lorie/InitOutput.c:986-994 | while the ring is not full, whatever is written into the producer's slot leaves every waiting entry as it was |
| GpuCopyProtocol.PublishIsEnqueue | termux-x11/lorie/src/main/cpp/lorie/InitOutput.c:986-996 | publishing a filled slot appends exactly that entry to the waiting FIFO |
| GpuCopyProtocol.AdvanceIsDequeue | termux-x11/lorie/src/main/cpp/lorie/renderer.cpp:746-823 | the slot at the read index holds the head of the FIFO, and advancing the index removes that head and nothing else |
| GpuCopySafety.RunKeepsQueue | termux-x11/lorie/src/main/cpp/lorie/InitOutput.c:900-1003 | in every state of every interleaving the ring, the producer's snapshot, the serials and the renderer's position agree, and the server's lock depth is its open locked accesses plus failed ones |
| GpuCopySafety.RingRefinesFifo | termux-x11/lorie/src/main/cpp/lorie/lorie.h:171-203 | over every run the entries drained are a prefix of the entries published and at most eight wait |
| GpuCopySafety.HistoryIsRun | termux-x11/lorie/src/main/cpp/lorie/renderer.cpp:746-823 | at every step the drained entries are exactly the first entries published, in order |
| GpuCopySafety.UnreadSlotsUntouched | termux-x11/lorie/src/main/cpp/lorie/InitOutput.c:952-996 | no step of any run changes a slot that holds an unread entry |
| GpuCopySafety.CompletedMonotone | termux-x11/lorie/src/main/cpp/lorie/renderer.cpp:835-852 | the completed serial never decreases, and is the serial of the last drained copy whenever the renderer does not hold the lock |
| GpuCopySafety.CompletionSafety | termux-x11/lorie/src/main/cpp/lorie/InitOutput.c:1005-1007 | whenever a serial is reported done, a fence was waited for at a moment when that copy and every earlier one had been drained |
| GpuCopySafety.StepKeepsAccess | termux-x11/lorie/src/main/cpp/lorie/InitOutput.c:1127-1156 | every step keeps the balance of lock and unlock calls: each open access repeats at its end the locking decision of its start |
| GpuCopyRefs.ReferenceConservation | termux-x11/lorie/src/main/cpp/lorie/InitOutput.c:959-984 | in every reachable state a buffer's count is its pixmap's reference plus its unacknowledged uses, its pending counter is those uses, the screen's counter is the unacknowledged screen copies, and nothing held is freed; for counts up to 65536 |
| GpuCopyRefs.AckKeepsRefs | termux-x11/lorie/src/main/cpp/lorie/InitOutput.c:1009-1022 | acknowledging one copy gives back exactly what scheduling it took |
| GpuCopyRefs.HoldKeepsRefs | termux-x11/lorie/src/main/cpp/lorie/InitOutput.c:959-984 | scheduling one copy takes one reference and one mark for each use |
| GpuCopyRefs.ReleaseFreesExactlyAt | termux-x11/lorie/src/main/cpp/lorie/buffer.h:92-109 | with a 16-bit count a release frees the buffer exactly when the true count is one more than a multiple of 65536, so 65537 is the first count that loses a held buffer |
| GpuCopyOverflow.CountWrapsOnARun | termux-x11/lorie/src/main/cpp/lorie/buffer.h:92-109 | from every start there is a run of 65536 copies of one pixmap, all done, after which the first acknowledgement frees the buffer while the pixmap and the other copies still use it: the bound of ReferenceConservation is exact |
| GpuCopyExclusion.CpuGpuExclusion | termux-x11/lorie/src/main/cpp/lorie/InitOutput.c:1119-1156 | in every state of every run that acknowledges only completed copies, no open CPU access conflicts with a copy whose draw is submitted and not fenced, and none writes the screen while it is being drawn |
| GpuCopyExclusion.GuardKeepsExclusion | termux-x11/lorie/src/main/cpp/lorie/InitOutput.c:1119-1156 | whatever was acknowledged before: from a state in which every live pixmap of a copy not yet fenced has an unacknowledged copy that cannot be reported done first, every continuation that acknowledges only completed copies keeps that and is exclusive |
| GpuCopyExclusion.UnguardedBreaks | termux-x11/lorie/src/main/cpp/lorie/InitOutput.c:1119-1156 | from every other state with the server between operations and the mutex free, some continuation that acknowledges only completed copies opens a CPU access that overlaps a copy, for a source and for a destination, the screen included |
| GpuCopyExclusion.ExclusionExactly | termux-x11/lorie/src/main/cpp/lorie/InitOutput.c:1119-1156 | so at every such point of every run, exclusion holds on all these continuations exactly when each live pixmap of a waiting copy has an unacknowledged copy that is not done |
| GpuCopyExclusion.LockBalance | termux-x11/lorie/src/main/cpp/lorie/InitOutput.c:1127-1156 | with no access open the server holds the mutex exactly when some access failed after locking; one such failure keeps it for the rest of the run |
| GpuCopyExclusion.LeakHappens | termux-x11/lorie/src/main/cpp/lorie/InitOutput.c:1127-1144 | from every start there is such a run: the first access to draw on the screen cannot map it |
| GpuCopyExclusion.StepLeaks | termux-x11/lorie/src/main/cpp/lorie/InitOutput.c:1127-1144 | an access leaves the mutex locked exactly when it locked and then could not map its buffer |
| GpuCopyExclusion.EarlyAckHappens | termux-x11/lorie/src/main/cpp/patches/xserver.patch:389-440 | creating a pixmap, scheduling one copy of it to the screen and acknowledging it at once is a run that leads to a state from which exclusion fails |
| GpuCopyCode.XServer.EnsureGpuSampleable | termux-x11/lorie/src/main/cpp/lorie/InitOutput.c:119-136 | succeeds exactly when the pixmap has a buffer and no memory of its own and the buffer is a hardware buffer or can be converted to one; then it is one, and it is mapped anew exactly when it was converted |
| GpuCopyCode.XServer.TryScheduleGpuCopy | termux-x11/lorie/src/main/cpp/lorie/InitOutput.c:900-1003 | schedules exactly under the guards of the source, and then publishes one entry, field by field: the two buffers, the offsets and the rectangles of the region, or the whole source without one, and the next serial; it holds its buffers. Otherwise queue, serial and counts are unchanged; a mapped source that cannot be mapped again is fatal |
| GpuCopyCode.XServer.GpuCopyAck | termux-x11/lorie/src/main/cpp/lorie/InitOutput.c:1009-1022 | undoes the holding of the copy: both marks first, then both references |
| GpuCopyCode.XServer.PrepareAccess | termux-x11/lorie/src/main/cpp/lorie/InitOutput.c:1127-1144 | locks before mapping when the pixmap needs it, keeps the lock when mapping fails, and records whether the buffer was mapped already |
| GpuCopyCode.XServer.FinishAccess | termux-x11/lorie/src/main/cpp/lorie/InitOutput.c:1146-1156 | unlocks under the same test and unmaps exactly what the matching Prepare mapped |
| GpuCopyCode.RendererThread.ApplyPendingGpuCopiesLocked | termux-x11/lorie/src/main/cpp/lorie/renderer.cpp:737-830 | applies every waiting entry in order until nothing waits and returns the last serial, zero if there was none |
| GpuCopyCode.RendererThread.ApplyPendingGpuCopies | termux-x11/lorie/src/main/cpp/lorie/renderer.cpp:835-852 | takes the lock, drains, waits for the fence, publishes the last serial, notifies and unlocks, in this order; without a serial there is no fence and no report, and without waiting entries nothing happens |
| GpuCopyCode.ScheduleSteps | termux-x11/lorie/src/main/cpp/lorie/InitOutput.c:952-1003 | without interference the protocol's scheduling steps compose to the code's single effect |
| GpuCopyDrawing.EntryLands | termux-x11/lorie/src/main/cpp/lorie/renderer.cpp:798-818 | draining an entry puts every source pixel of its rectangles at its position plus the offset and changes no other pixel and no other buffer |
| GpuCopyDrawing.ScheduledCopyLands | termux-x11/lorie/src/main/cpp/lorie/InitOutput.c:900-1003 | from the call to the picture: after a scheduled copy is drained, the source pixel at (x, y) that was asked for stands at (x, y) plus the offset in the destination |
| BufferLists.BufferLifetime | termux-x11/lorie/src/main/cpp/lorie/renderer.cpp:541-579 | over every interleaving of the two threads: each live buffer is on exactly one list once, none is freed twice, every buffer that arrived is live or freed, attached buffers are freed by the renderer thread only, picked buffers are live |
| BufferLists.PickedStaysLive | termux-x11/lorie/src/main/cpp/lorie/renderer.cpp:712-735 | a buffer picked for a redraw or copy stays live until the next release phase, whatever the main thread does |
| BufferLists.ShutdownFreesAll | termux-x11/lorie/src/main/cpp/lorie/renderer.cpp:1103-1138 | removing everything and one release phase free every buffer that ever arrived exactly once |
| BufferLists.RemoveTakesEffect | termux-x11/lorie/src/main/cpp/lorie/renderer.cpp:548-563 | removing a buffer that is not attached yet frees it exactly when its count is one |
| BufferLists.AddArrives | termux-x11/lorie/src/main/cpp/lorie/renderer.cpp:541-546 | a buffer that arrives is on the added list with its id and references and not attached, and no other buffer moves |
| BufferLists.RemoveHandsOver | termux-x11/lorie/src/main/cpp/lorie/renderer.cpp:548-563 | removing an attached buffer moves one with the id to the removed list, still live; nothing else moves and nothing is freed |
| BufferLists.RemoveOfUnknown | termux-x11/lorie/src/main/cpp/lorie/renderer.cpp:548-563 | removing an id that no added or attached buffer has changes nothing |
| BufferLists.RemoveAllPlaces | termux-x11/lorie/src/main/cpp/lorie/renderer.cpp:565-579 | removing everything frees what is not attached and hands over what is; the removed ones stay |
| BufferLists.AttachMovesAll | termux-x11/lorie/src/main/cpp/lorie/renderer.cpp:1103-1110 | attaching moves exactly the added buffers to the attached ones, all of them |
| BufferLists.FindAttaches | termux-x11/lorie/src/main/cpp/lorie/renderer.cpp:712-722 | a lookup finds a buffer exactly when an added or attached one has the id; then it is attached, and no other moves |
| BufferLists.RootIsPicked | termux-x11/lorie/src/main/cpp/lorie/renderer.cpp:875-883 | the root texture is taken from the attached buffers, else from the removed ones, and nothing moves |
| BufferLists.ReleasePlaces | termux-x11/lorie/src/main/cpp/lorie/renderer.cpp:1124-1128 | the release phase frees exactly the removed buffers, each once |
| BufferLists.RemovalFrees | termux-x11/lorie/src/main/cpp/lorie/renderer.cpp:548-563 | over every run: the removal of an attached buffer that alone has its id, and the next release phase, free it on the renderer thread exactly once, whatever happens in between |
| BufferListsCode.RendererBuffers.AddBuffer | termux-x11/lorie/src/main/cpp/lorie/renderer.cpp:541-546 | the buffer is put in front of the added list |
| BufferListsCode.RendererBuffers.RemoveBuffer | termux-x11/lorie/src/main/cpp/lorie/renderer.cpp:548-563 | an added buffer is released, an attached one moves to the removed list, an unknown id changes nothing |
| BufferListsCode.RendererBuffers.RemoveAllBuffers | termux-x11/lorie/src/main/cpp/lorie/renderer.cpp:565-579 | all added buffers are freed in order and all attached ones are handed to the removed list |
| BufferListsCode.RendererBuffers.AttachPending | termux-x11/lorie/src/main/cpp/lorie/renderer.cpp:1103-1138 | every added buffer is attached and moved, front first |
| BufferListsCode.RendererBuffers.ReleaseRemovedBuffers | termux-x11/lorie/src/main/cpp/lorie/renderer.cpp:1103-1138 | every removed buffer is freed by the renderer thread |
| BufferListsCode.RendererBuffers.ReleaseBuffer | termux-x11/lorie/src/main/cpp/lorie/buffer.h:104-109 | drops one reference; the last one unlinks and frees the buffer |
| BufferListsCode.RendererBuffers.FindOnce | termux-x11/lorie/src/main/cpp/lorie/renderer.cpp:712-735 | finds a buffer exactly when a listed one has the id; one on the added list is attached first, and what is returned is live, listed and has the id |
| XdmcpDes.ApplyInvolution | termux-x11/lorie/src/main/cpp/libxdmcp/Wraphelp.c:363-365 | every PERM_OP of the initial permutation is its own inverse |
| XdmcpDes.PermuteBack | termux-x11/lorie/src/main/cpp/libxdmcp/Wraphelp.c:456-461 | a network of exchanges is undone by the same exchanges in the opposite order |
| XdmcpDes.BackwardForward | termux-x11/lorie/src/main/cpp/libxdmcp/Wraphelp.c:469-479 | the decryption loop over the key pairs undoes the encryption loop, for any number of double rounds |
| XdmcpDes.ForwardBackward | termux-x11/lorie/src/main/cpp/libxdmcp/Wraphelp.c:469-479 | and the encryption loop undoes the decryption loop |
| XdmcpDes.CryptInverse | termux-x11/lorie/src/main/cpp/libxdmcp/Wraphelp.c:443-495 | each direction of the block cipher undoes the other for every block, every schedule and every substitution table |
| XdmcpDes.RunForward | termux-x11/lorie/src/main/cpp/libxdmcp/Wraphelp.c:469-473 | the loop over key positions upwards is the recursive chain of double rounds |
| XdmcpDes.RunBackward | termux-x11/lorie/src/main/cpp/libxdmcp/Wraphelp.c:474-479 | the loop over key positions downwards likewise |
| XdmcpDes.AuthDoIt | termux-x11/lorie/src/main/cpp/libxdmcp/Wraphelp.c:443-495 | the output block is the cipher of the input block and no other byte changes, also in place |
| XdmcpDesBits.LeftAfterInitial | termux-x11/lorie/src/main/cpp/libxdmcp/Wraphelp.c:453-461 | the initial permutation bit by bit: the left word gets bits 7, 5, 3 and 1 of the eight bytes, the last byte first |
| XdmcpDesBits.RightAfterInitial | termux-x11/lorie/src/main/cpp/libxdmcp/Wraphelp.c:453-461 | and the right word bits 6, 4, 2 and 0 |
| XdmcpDesBits.MixIs | termux-x11/lorie/src/main/cpp/libxdmcp/Wraphelp.c:428-440 | what a round mixes in is the union of one entry of each row; row r is indexed by six bits of the half from place 4r - 1 on combined with six key bits from place 4r on, of the first key word for even rows and of the second for odd ones |
| XdmcpDesBits.RoundsAreTextbook | termux-x11/lorie/src/main/cpp/libxdmcp/Wraphelp.c:469-479 | the eight double rounds are the sixteen rounds of FIPS 46, in which the halves change places, with the key pairs in order to encrypt and in the opposite order to decrypt |
| XdmcpComplement.Complementation | termux-x11/lorie/src/main/cpp/libxdmcp/Wraphelp.c:428-495 | complementing the block and the schedule complements the result, in both directions and for every table |
| XdmcpComplement.MixStays | termux-x11/lorie/src/main/cpp/libxdmcp/Wraphelp.c:428-440 | the key mixing of a round cancels the complement, so the tables see the same indices |
| XdmcpKeys.ParityIsOdd | termux-x11/lorie/src/main/cpp/libxdmcp/Wrap.c:92-99 | the low bit that OddParity adds to seven bits makes the number of ones odd |
| XdmcpKeys.ExpandParity | termux-x11/lorie/src/main/cpp/libxdmcp/Wrap.c:106-126 | the first seven expanded bytes have odd parity; the eighth exactly when wrapper byte 7 is below 128 |
| XdmcpKeys.GatherExpand | termux-x11/lorie/src/main/cpp/libxdmcp/Wrap.c:106-126 | the upper seven bits of the eight expanded bytes are exactly wrapper bytes 1 to 7 |
| XdmcpKeys.ExpandAgrees | termux-x11/lorie/src/main/cpp/libxdmcp/Wrap.c:106-126 | two wrappers expand alike, and agree in the upper seven bits, exactly when their bytes 1 to 7 agree |
| XdmcpKeys.WrapperToOddParity | termux-x11/lorie/src/main/cpp/libxdmcp/Wrap.c:106-126 | the loop over shift distances computes the expansion |
| XdmcpSchedule.ChoiceDropsParity | termux-x11/lorie/src/main/cpp/libxdmcp/Wraphelp.c:382-398 | the first permuted choice does not depend on the lowest bit of each key byte |
| XdmcpSchedule.HalvesAreUpperBits | termux-x11/lorie/src/main/cpp/libxdmcp/Wraphelp.c:382-398 | and it keeps every other bit: two keys have the same halves exactly when they agree in the upper seven bits of every byte |
| XdmcpSchedule.ScheduleIgnoresParity | termux-x11/lorie/src/main/cpp/libxdmcp/Wraphelp.c:372-425 | the key schedule is unchanged by the low bits of the expanded bytes, for every selection table |
| XdmcpSchedule.AuthSetup | termux-x11/lorie/src/main/cpp/libxdmcp/Wraphelp.c:372-425 | the code fills the 32 schedule words with the specified schedule of the key, whose words the next rows describe bit by bit |
| XdmcpScheduleBits.FirstHalfBits | termux-x11/lorie/src/main/cpp/libxdmcp/Wraphelp.c:382-396 | the first permuted choice bit by bit: the first half holds bits 7, 6 and 5 of the eight key bytes, the last byte first, and then bit 4 of the last four |
| XdmcpScheduleBits.SecondHalfBits | termux-x11/lorie/src/main/cpp/libxdmcp/Wraphelp.c:382-396 | the second half holds bits 1, 2 and 3 of the eight bytes and then bit 4 of the first four |
| XdmcpScheduleBits.HalvesTurn | termux-x11/lorie/src/main/cpp/libxdmcp/Wraphelp.c:398-405 | in round i place b of each half holds bit b + T(i), counted modulo 28, of the starting half, with T = 1, 2, 4, 6, 8, 10, 12, 14, 15, 17, 19, 21, 23, 25, 27, 28 |
| XdmcpScheduleBits.ScheduleTurnsRound | termux-x11/lorie/src/main/cpp/libxdmcp/Wraphelp.c:398-405 | after sixteen rounds both halves are the starting ones again |
| XdmcpScheduleBits.IndexesAt | termux-x11/lorie/src/main/cpp/libxdmcp/Wraphelp.c:408-416 | the eight table indexes of a round are the bits of the turned halves at the places the second permuted choice names |
| XdmcpScheduleBits.RoundPair | termux-x11/lorie/src/main/cpp/libxdmcp/Wraphelp.c:408-423 | the two words of every round, bit by bit, in terms of the key halves: the first has the lower halves of the two groups of selected entries, the second their upper halves turned by four |
| BlockChaining.UnwrapInvertsWrap | termux-x11/lorie/src/main/cpp/libxdmcp/Unwrap.c:70-87 | for every invertible block cipher and every message of any length, unwrapping the wrapped bytes gives the message followed by zero padding |
| BlockChaining.BlockIsChained | termux-x11/lorie/src/main/cpp/libxdmcp/Wrap.c:63-84 | output block n is the encryption of message block n combined with output block n - 1; the first block is encrypted as it is |
| BlockChaining.ChangeReaches | termux-x11/lorie/src/main/cpp/libxdmcp/Wrap.c:63-84 | two messages that differ in one block have different output in that block and in every later one |
| BlockChaining.Wrap | termux-x11/lorie/src/main/cpp/libxdmcp/Wrap.c:63-84 | the loop writes the chained encryption over whole blocks, also when output and input are one array, and changes nothing behind them |
| BlockChaining.Unwrap | termux-x11/lorie/src/main/cpp/libxdmcp/Unwrap.c:70-87 | the loop with its two alternating saved blocks writes the chained decryption of the whole blocks, also in place; an incomplete last block is left alone |
| BlockChaining.WrapAndUnwrapInPlace | termux-x11/lorie/src/main/cpp/libxdmcp/Unwrap.c:54-88 | wrapping a buffer in place and unwrapping it in place gives the message back, zero-padded |
| BlockChaining.RoundsToBlocks | termux-x11/lorie/src/main/cpp/libxdmcp/Wrap.c:63-84 | the number of bytes written is the length rounded up, and read the length rounded down, to a multiple of eight |
| XdmcpWrap.WrapRoundTrip | termux-x11/lorie/src/main/cpp/libxdmcp/Unwrap.c:54-88 | for every wrapper, every pair of tables and every message, unwrap of wrap is the message with zero padding |
| XdmcpWrap.WrapChangeReaches | termux-x11/lorie/src/main/cpp/libxdmcp/Wrap.c:48-84 | so it is with the cipher as it is: a changed block changes every block of the ciphertext from there on |
| XdmcpWrap.WrapDependsOn56Bits | termux-x11/lorie/src/main/cpp/libxdmcp/Wrap.c:48-84 | the ciphertext depends on the wrapper only through its bytes 1 to 7 |
| XdmcpWrap.WrapIgnoresParity | termux-x11/lorie/src/main/cpp/libxdmcp/Wrap.c:61-63 | the ciphertext does not depend on the parity bits of the expanded key |
| XdmcpWrap.Wrap | termux-x11/lorie/src/main/cpp/libxdmcp/Wrap.c:48-84 | the whole function: expansion, schedule and chaining; a length of zero or less writes nothing |
| XdmcpWrap.Unwrap | termux-x11/lorie/src/main/cpp/libxdmcp/Unwrap.c:54-88 | the whole function, its converse |
| KeysymSearch.EffectiveGroup | termux-x11/lorie/src/main/cpp/lorie/InputXKB.c:153-171 | an out-of-range group is wrapped, clamped or redirected, always to a group the key has |
| KeysymSearch.RowIs | termux-x11/lorie/src/main/cpp/lorie/InputXKB.c:153-171 | which group that is: the one the state spells if the key has it, else the remainder, the last group, or the named one if the key has it and otherwise the first |
| KeysymSearch.FirstEntry | termux-x11/lorie/src/main/cpp/lorie/InputXKB.c:175-187 | the entry used is the first active one whose mask equals the relevant modifiers |
| KeysymSearch.TranslateKeyCode | termux-x11/lorie/src/main/cpp/lorie/InputXKB.c:132-195 | symbol and consumed modifiers of a key in a state, nothing for a key out of range or without groups |
| KeysymSearch.TranslatesByEntry | termux-x11/lorie/src/main/cpp/lorie/InputXKB.c:132-195 | in a state that selects an entry of the type, a key gives the symbol and the action of that group and that level and consumes the modifiers of the type except the preserved ones |
| KeysymSearch.TranslatesPlain | termux-x11/lorie/src/main/cpp/lorie/InputXKB.c:132-195 | in a state that selects none it gives the first level and consumes all of them |
| KeysymSearch.YieldsByEntry | termux-x11/lorie/src/main/cpp/lorie/InputXKB.c:492-538 | such a key yields that symbol and no other keysym, in its upper-case form exactly when Lock is on and not consumed |
| KeysymSearch.EverySymbolIsReached | termux-x11/lorie/src/main/cpp/lorie/InputXKB.c:132-195 | every symbol that a first entry with its mask stands for is given in some state |
| KeysymSearch.KeyAction | termux-x11/lorie/src/main/cpp/lorie/InputXKB.c:197-246 | the action at the same column as the symbol |
| KeysymSearch.LevelThreeMask | termux-x11/lorie/src/main/cpp/lorie/InputXKB.c:284-313 | the modifier of the key for ISO_Level3_Shift, or failing that Mode_switch, in the current group; none unless its action sets modifiers |
| KeysymSearch.LevelThreeIs | termux-x11/lorie/src/main/cpp/lorie/InputXKB.c:284-313 | which modifier that is: what the key that answers for ISO_Level3_Shift in the group sets, what the one for Mode_switch sets only if there is none, and nothing if there is neither |
| KeysymSearch.Scan | termux-x11/lorie/src/main/cpp/lorie/InputXKB.c:492-538 | the first ordinary key that yields the keysym in the state, else the first fake one, else zero |
| KeysymSearch.KeysymToKeycode | termux-x11/lorie/src/main/cpp/lorie/InputXKB.c:482-566 | terminates through its recursion with the level three search, and finds the answer in the first tried state that has one |
| KeysymSearch.FoundMeans | termux-x11/lorie/src/main/cpp/lorie/InputXKB.c:482-566 | a non-zero result yields the keysym in the returned state, which differs only in Shift and level three bits; a fake key only if no ordinary key would do; zero exactly when no key yields it in any state tried |
| KeysymSearch.TriedCovers | termux-x11/lorie/src/main/cpp/lorie/InputXKB.c:540-566 | the tried states are all four combinations of Shift and level three, each on and off, with the rest as it is |
| KeysymSearch.AnswerIsUnique | termux-x11/lorie/src/main/cpp/lorie/InputXKB.c:492-538 | the description of a lookup in one state admits one answer |
| KeyEvents.TableIsHistory | termux-x11/lorie/src/main/cpp/lorie/InputXKB.c:761-777 | over every sequence of calls no real keysym is in two slots, and a slot holds a keysym exactly when the last call that mentions either is the press of that keysym on that key |
| KeyEvents.ReleaseMatchesPress | termux-x11/lorie/src/main/cpp/lorie/InputXKB.c:761-777 | a release finds the key its press used exactly when neither was reassigned since, and otherwise finds nothing |
| KeyEvents.FakesCancel | termux-x11/lorie/src/main/cpp/lorie/InputXKB.c:906-979 | the fake events around a press cancel, leaving the held keys and the pressed one down, exactly when no fake press used a key that was down or the pressed key, a key lifted by the Shift release excepted |
| KeyEventsCode.FindHeld | termux-x11/lorie/src/main/cpp/lorie/InputXKB.c:349-395 | all keys that are down and set one of the modifiers, in order, or none when there are more than eight |
| KeyEventsCode.FindShift | termux-x11/lorie/src/main/cpp/lorie/InputXKB.c:315-347 | the first key whose action sets Shift, or zero when Shift is on or no key does |
| KeyEventsCode.FindLevelThree | termux-x11/lorie/src/main/cpp/lorie/InputXKB.c:397-428 | the key for ISO_Level3_Shift or else Mode_switch, exactly when the modifier is defined and off and that key sets modifiers, otherwise zero |
| KeyEventsCode.FakeShift | termux-x11/lorie/src/main/cpp/lorie/InputXKB.c:906-925 | no change, one press or a release of every holder, as the two states differ in Shift; fails exactly when Shift must be set and no key sets it, or must be cleared and no key, or more than eight, hold it |
| KeyEventsCode.FakeLevelThree | termux-x11/lorie/src/main/cpp/lorie/InputXKB.c:927-946 | the same for the level three modifiers, whose key must also set modifiers |
| KeyEventsCode.TryAlternates | termux-x11/lorie/src/main/cpp/lorie/InputXKB.c:791-807 | a key for an equivalent keysym, or the knowledge that none has one |
| KeyEventsCode.EquivalentIs | termux-x11/lorie/src/main/cpp/lorie/InputXKB.c:791-802 | two keysyms are equivalent exactly when they are the same or a pair of the table in either order |
| KeyEventsCode.FindKey | termux-x11/lorie/src/main/cpp/lorie/InputXKB.c:787-830 | a key for the keysym or an equivalent, in the keymap as it is or after adding the keysym; zero only when every search failed |
| KeyEventsCode.AvoidShift | termux-x11/lorie/src/main/cpp/lorie/InputXKB.c:832-877 | replaces the key only when NumLock affects it and it would need a fake Shift, by one for an equivalent keysym that does not; such a key is kept only when no equivalent keysym has a better one |
| KeyEventsCode.ChosenYields | termux-x11/lorie/src/main/cpp/lorie/InputXKB.c:779-905 | the key a call presses yields the keysym or an equivalent in the state it presses it in; a shifted Tab keeps Shift and is otherwise in such a state |
| KeyEventsCode.Injector.KeyUp | termux-x11/lorie/src/main/cpp/lorie/InputXKB.c:761-777 | the first slot with the keysym is cleared and its key released; without one nothing happens |
| KeyEventsCode.Injector.Record | termux-x11/lorie/src/main/cpp/lorie/InputXKB.c:953-963 | the keysym ends up in the key's slot and in no other |
| KeyEventsCode.Injector.KeyDown | termux-x11/lorie/src/main/cpp/lorie/InputXKB.c:779-989 | a call that reaches the real press queues it properly nested in its fake modifiers and their undoing and records the slot; it gives up exactly when Shift or level three cannot be changed as the target needs, and then records nothing; after giving up on level three the keys down are as before exactly when Shift did not have to change or its key was down already |
| KeyEventsCode.PressNetEffect | termux-x11/lorie/src/main/cpp/lorie/InputXKB.c:906-979 | what FakesCancel says holds for the fake changes the code chooses |
| KeyEventsCode.GivingUpLeavesShift | termux-x11/lorie/src/main/cpp/lorie/InputXKB.c:927-942 | the events of a call that gave up on level three leave the keys down as they were exactly when the current state and the target agree in Shift, or Shift is off and the first key that sets it is down |
| KeyEventsGivingUp.ShiftStaysDown | termux-x11/lorie/src/main/cpp/lorie/InputXKB.c:927-942 | a call that fails so: with level three locked and no key held for it, a letter that needs Shift without level three leaves the Shift key pressed |
| ClipboardReplies.ExactlyOnce | termux-x11/lorie/src/main/cpp/lorie/clipboard.c:299-411 | at every point of every run of requests, announces and data arrivals each request made so far is answered once and not waiting, or waits once and has no answer |
| ClipboardReplies.ArrivalAnswersAll | termux-x11/lorie/src/main/cpp/lorie/clipboard.c:526-559 | after data arrives nothing waits and every request made so far has exactly one answer |
| ClipboardReplies.RepliesGrow | termux-x11/lorie/src/main/cpp/lorie/clipboard.c:403-411 | answers are never taken back |
| ClipboardReplies.WaitingIsText | termux-x11/lorie/src/main/cpp/lorie/clipboard.c:355-386 | only requests for text ever wait |
| ClipboardReplies.RefusalByProperty | termux-x11/lorie/src/main/cpp/lorie/clipboard.c:403-411 | an answer carries no property exactly when the conversion failed or the request named none |
| ClipboardReplies.TextIsRight | termux-x11/lorie/src/main/cpp/lorie/clipboard.c:377-400 | the text put in the property for a target is the cached text in that target's encoding |
| ClipboardReplies.ReplyIsProper | termux-x11/lorie/src/main/cpp/lorie/clipboard.c:329-399 | with data at hand a willing server answers exactly the offered targets, with the property, type and contents the target asks for |
| ClipboardReplies.AnsweredAtOnce | termux-x11/lorie/src/main/cpp/lorie/clipboard.c:299-411 | a request made while the data is at hand gets that answer at once; one for another target is refused |
| ClipboardReplies.AnsweredOnArrival | termux-x11/lorie/src/main/cpp/lorie/clipboard.c:526-559 | a request that waited gets it when the data arrives |
| ClipboardReplies.RefusedExactly | termux-x11/lorie/src/main/cpp/lorie/clipboard.c:299-411 | with data at hand a request is refused exactly when a lookup fails, its target is not offered, the value cannot be stored or memory for converted text is missing |
| ClipboardReplies.DrainsWithData | termux-x11/lorie/src/main/cpp/lorie/clipboard.c:534-558 | with data the loop ends after one round for each waiting request and answers them in the list's order |
| ClipboardReplies.NullArrivalEnds | termux-x11/lorie/src/main/cpp/lorie/clipboard.c:534-558 | a precondition of the function that its caller meets: with a null pointer the loop would end exactly when no waiting request can be put back on the list |
| ClipboardCode.Clipboard.ConvertSelection | termux-x11/lorie/src/main/cpp/lorie/clipboard.c:299-411 | answers, keeps or refuses a request by its target, the data at hand and the outcome of lookups, allocation and property change |
| ClipboardCode.Clipboard.ProcConvertSelection | termux-x11/lorie/src/main/cpp/lorie/clipboard.c:413-459 | a request reaches the conversion exactly when its window is found, its atoms are valid and the root window owns the selection, and a refused one is then answered without a property; all others change nothing |
| ClipboardCode.Clipboard.OwnSelection | termux-x11/lorie/src/main/cpp/lorie/clipboard.c:461-510 | takes the selection exactly when the server allows it, and tells the client that owned it and nobody else |
| ClipboardCode.Clipboard.HandleAnnounce | termux-x11/lorie/src/main/cpp/lorie/clipboard.c:512-524 | forgets the cached data whether or not the selection could be taken, keeps requests and answers, and takes the selection |
| ClipboardCode.Clipboard.HandleData | termux-x11/lorie/src/main/cpp/lorie/clipboard.c:526-559 | caches the data, answers the whole list and empties it |
| ClipboardText.EncodingIsChar | termux-x11/lorie/src/main/cpp/lorie/clipboard.c:80-135 | every scalar value's encoding fits the syntax of section 4 of RFC 3629 and has that value |
| ClipboardText.CharIsEncoding | termux-x11/lorie/src/main/cpp/lorie/clipboard.c:80-135 | every character of that syntax is the encoding of a scalar value |
| ClipboardText.DecodesOne | termux-x11/lorie/src/main/cpp/lorie/clipboard.c:80-135 | on an encoded character followed by anything the decoder consumes exactly it and gives its value |
| ClipboardText.DecodesAll | termux-x11/lorie/src/main/cpp/lorie/clipboard.c:142-155 | on every well-formed string without NUL that fits the limit a pass yields exactly its scalar values |
| ClipboardText.Latin1RoundTrip | termux-x11/lorie/src/main/cpp/lorie/clipboard.c:43-49 | Latin-1 to UTF-8 and back is the identity on a string without NUL exactly when its UTF-8 form is no longer than the second pass's limit |
| TextPasses.PassesAgree | termux-x11/lorie/src/main/cpp/lorie/clipboard.c:142-176 | the two passes decode the same characters of every string shorter than both limits |
| ClipboardTextCode.AcceptsWellFormed | termux-x11/lorie/src/main/cpp/lorie/clipboard.c:51-78 | every well-formed string is accepted whatever lies behind it, also one with NUL in it |
| ClipboardTextCode.AcceptedIsWellFormed | termux-x11/lorie/src/main/cpp/lorie/clipboard.c:51-78 | a text without NUL is well-formed exactly when it is accepted and, at every character start, the lead is not a tail byte, C0, C1 or above F4, the second byte keeps the limits after E0, ED, F0 and F4, and the character ends within the size |
| ClipboardTextCode.AcceptsStrayTail | termux-x11/lorie/src/main/cpp/lorie/clipboard.c:51-78 | so acceptance alone is not enough: two tail bytes, and a lone lead with a tail byte behind the text, are accepted and not well-formed |
| ClipboardTextCode.CheckUtf8 | termux-x11/lorie/src/main/cpp/lorie/clipboard.c:51-78 | the loop, which also reads behind the size, accepts every well-formed text, and decides well-formedness of a text without NUL whose characters start well and end within the size |
| ClipboardTextCode.CrRemovalKeepsWellFormed | termux-x11/lorie/src/main/cpp/lorie/clipboard.c:36-41 | removing carriage returns from a well-formed string gives the encoding of the other characters |
| ClipboardTextCode.ConvertLf | termux-x11/lorie/src/main/cpp/lorie/clipboard.c:36-41 | the destination begins with the bytes other than carriage return and is otherwise unchanged |
| ClipboardTextCode.Latin1ToUtf8Loop | termux-x11/lorie/src/main/cpp/lorie/clipboard.c:43-49 | the output begins with the encoding of the bytes before the terminator and is otherwise unchanged |
| ClipboardTextCode.DecodeLoop | termux-x11/lorie/src/main/cpp/lorie/clipboard.c:80-135 | bytes consumed and value, also for stray, truncated and surrogate input |
| ClipboardTextCode.ReadsBehind | termux-x11/lorie/src/main/cpp/lorie/clipboard.c:137-155 | a pass over a string in memory yields the string's characters and then, exactly when its last character is cut short, those of what lies behind the terminator |
| ClipboardTextCode.BehindMattersIfCut | termux-x11/lorie/src/main/cpp/lorie/clipboard.c:137-155 | what lies behind the terminator never matters exactly when the last character is not cut short |
| ClipboardTextCode.CutTakesTerminator | termux-x11/lorie/src/main/cpp/lorie/clipboard.c:116-124 | one character consumes the terminator exactly when the rest of the string is its leading byte and fewer tail bytes than that announces |
| ClipboardTextCode.LoneLeadReadsBehind | termux-x11/lorie/src/main/cpp/lorie/clipboard.c:116-124 | a string of one leading byte is such a string: the pass goes on to the letter behind the terminator |
| ClipboardTextCode.TerminatedIsReadable | termux-x11/lorie/src/main/cpp/lorie/clipboard.c:137-155 | a pass stays within the memory of a terminated string exactly when the last character is not cut short or what follows is readable in turn |
| ClipboardTextCode.WellFormedEndsWhole | termux-x11/lorie/src/main/cpp/lorie/clipboard.c:137-155 | well-formed text without NUL is never cut short |
| ClipboardTextCode.Utf8ToLatin1 | termux-x11/lorie/src/main/cpp/lorie/clipboard.c:137-180 | on any memory the passes can read to their end, the second never writes more than the first one counted, and the result is the converted text up to its first NUL |
| ClipboardTextCode.Utf8ToLatin1Exact | termux-x11/lorie/src/main/cpp/lorie/clipboard.c:137-180 | on well-formed text without NUL, whatever lies behind it, Latin-1 characters come out as they are and all others as question marks |
| XdmcpCodec.CardIsBigEndian | termux-x11/lorie/src/main/cpp/libxdmcp/Write.c:114-151 | byte i of a card is the digit of weight 256 to the number of bytes behind it |
| XdmcpCodec.CardRoundTrip | termux-x11/lorie/src/main/cpp/libxdmcp/Read.c:205-244 | a card that fits its width reads back wherever its bytes stand, ending behind them |
| XdmcpCodec.CardsLayout | termux-x11/lorie/src/main/cpp/libxdmcp/Write.c:62-99 | an array on the wire is its length and then its items, item k at k times the item width |
| XdmcpCodec.CardsRoundTrip | termux-x11/lorie/src/main/cpp/libxdmcp/Read.c:52-161 | every ARRAY8, ARRAY16 and ARRAY32 reads back as the same items, ending behind them |
| XdmcpCodec.ArraysRoundTrip | termux-x11/lorie/src/main/cpp/libxdmcp/Read.c:163-203 | every ARRAYofARRAY8 reads back as the same arrays |
| XdmcpCodec.HeaderRoundTrip | termux-x11/lorie/src/main/cpp/libxdmcp/Read.c:36-44 | every header reads back |
| XdmcpCodec.HeaderBytes | termux-x11/lorie/src/main/cpp/libxdmcp/Write.c:36-60 | a header on the wire is version, opcode and length, each with its upper byte first |
| XdmcpCodec.PutStands | termux-x11/lorie/src/main/cpp/libxdmcp/Write.c:114-151 | what was written stands in the buffer where the position was, and the position is behind it |
| XdmcpCodec.PutTwice | termux-x11/lorie/src/main/cpp/libxdmcp/Write.c:62-112 | writing two pieces in turn, the second only if the first fitted, is writing them together |
| XdmcpBuffers.Buffer.WriteCard8 | termux-x11/lorie/src/main/cpp/libxdmcp/Write.c:114-123 | stores one byte exactly when the position is below the size |
| XdmcpBuffers.Buffer.WriteCard16 | termux-x11/lorie/src/main/cpp/libxdmcp/Write.c:125-135 | stores as many of the two bytes as fit and succeeds exactly when both do |
| XdmcpBuffers.Buffer.WriteCard32 | termux-x11/lorie/src/main/cpp/libxdmcp/Write.c:137-151 | the same for four bytes |
| XdmcpBuffers.Buffer.WriteCards | termux-x11/lorie/src/main/cpp/libxdmcp/Write.c:62-99 | length and items, as many bytes as fit; success exactly when all do |
| XdmcpBuffers.Buffer.WriteArrays | termux-x11/lorie/src/main/cpp/libxdmcp/Write.c:101-112 | the same for an array of arrays |
| XdmcpBuffers.Buffer.WriteHeader | termux-x11/lorie/src/main/cpp/libxdmcp/Write.c:36-60 | fails exactly when the buffer is too small for the message and cannot be replaced; otherwise the header stands at the start of a buffer of the old or the maximal size |
| XdmcpBuffers.Buffer.ReadCard8 | termux-x11/lorie/src/main/cpp/libxdmcp/Read.c:205-212 | reads a byte exactly when the position is below the count |
| XdmcpBuffers.Buffer.ReadCard16 | termux-x11/lorie/src/main/cpp/libxdmcp/Read.c:214-226 | the described big-endian read; the position never passes the count |
| XdmcpBuffers.Buffer.ReadCard32 | termux-x11/lorie/src/main/cpp/libxdmcp/Read.c:228-244 | the same for four bytes |
| XdmcpBuffers.Buffer.ReadCards | termux-x11/lorie/src/main/cpp/libxdmcp/Read.c:52-161 | a failed read leaves the data pointer null; a successful one gives the described items; the position never passes the count |
| XdmcpBuffers.Buffer.ReadArrays | termux-x11/lorie/src/main/cpp/libxdmcp/Read.c:163-203 | the same for an array of arrays |
| XdmcpBuffers.Buffer.ReadHeader | termux-x11/lorie/src/main/cpp/libxdmcp/Read.c:36-44 | the three fields in order, or failure where the bytes ran out |
| XdmcpBuffers.CardsComeBack | termux-x11/lorie/src/main/cpp/libxdmcp/Write.c:62-99 | cards written to a buffer with room for them and read from the old position come back the same, and the reader ends where the writer did |
| XdmcpBuffers.ArraysComeBack | termux-x11/lorie/src/main/cpp/libxdmcp/Write.c:101-112 | the same for arrays of arrays |
| XdmcpBuffers.HeaderComesBack | termux-x11/lorie/src/main/cpp/libxdmcp/Write.c:36-60 | the same for headers, also when the buffer had to be replaced |
| AuthFile.RecordRoundTrip | termux-x11/lorie/src/main/cpp/libxau/AuRead.c:75-103 | a written record reads back wherever its bytes stand |
| AuthFile.RecordLayout | termux-x11/lorie/src/main/cpp/libxau/AuWrite.c:44-68 | a record on disk is the family and then address, number, name and data, each behind its length, all numbers in two bytes with the upper one first |
| AuthFile.FileRoundTrip | termux-x11/lorie/src/main/cpp/libxau/AuRead.c:75-103 | any concatenation of written records, whatever follows it, reads back as those records in order first |
| AuthFile.WholeFile | termux-x11/lorie/src/main/cpp/libxau/AuWrite.c:54-68 | a file of written records reads back as exactly those records |
| AuthFile.FileReadsBack | termux-x11/lorie/src/main/cpp/libxau/AuRead.c:75-103 | for the reader and the writer as they are: writing any records and reading the file gives exactly them |
| AuthFile.AppendedReadsBack | termux-x11/lorie/src/main/cpp/libxau/AuWrite.c:54-68 | records appended to a file of records are read behind them |
| AuthFile.SameNameIsEqual | termux-x11/lorie/src/main/cpp/libxau/AuGetBest.c:113-118 | for names without NUL the comparison of names is equality |
| AuthFile.BestIsUnique | termux-x11/lorie/src/main/cpp/libxau/AuGetBest.c:80-133 | the description of the best record admits one answer |
| AuthFile.BestIsAsked | termux-x11/lorie/src/main/cpp/libxau/AuGetBest.c:80-133 | the best record field by field: it has the asked family and address unless a side is wild, the asked number unless a side is empty, and a listed name, no other such record one that stands earlier in the list; there is none exactly when no record is like that |
| AuthFile.EmptyListTakesFirst | termux-x11/lorie/src/main/cpp/libxau/AuGetBest.c:108-112 | with an empty preference list the best record is the first matching one |
| AuthFileCode.Stream.WriteAuth | termux-x11/lorie/src/main/cpp/libxau/AuWrite.c:54-68 | appends as much of the record's bytes as the device takes and succeeds exactly when it takes them all |
| AuthFileCode.Stream.ReadAuth | termux-x11/lorie/src/main/cpp/libxau/AuRead.c:75-103 | succeeds exactly when a whole record stands at the position, and then returns it and moves behind it |
| AuthFileCode.Stream.ReadCountedString | termux-x11/lorie/src/main/cpp/libxau/AuRead.c:44-73 | a string of the stated length, or failure when the file ends before it |
| AuthFileCode.Stream.GetBest | termux-x11/lorie/src/main/cpp/libxau/AuGetBest.c:80-133 | the result is the earliest matching record of the whole file whose name has the smallest index in the list, so neither early exit changes the answer |
| AuthFileCode.Stream.BestAuth | termux-x11/lorie/src/main/cpp/libxau/AuGetBest.c:80-133 | the same for the records the file reader itself reads, and in fields: the returned record is one of the file that has what was asked for, and nothing is returned exactly when no record has |
| AuthFileCode.Consider | termux-x11/lorie/src/main/cpp/libxau/AuGetBest.c:99-130 | one record of the scan: the scan stops only when the answer is settled |
| FileLock.MutualExclusion | termux-x11/lorie/src/main/cpp/libxau/AuLock.c:64-112 | for any number of processes and every interleaving, with any breaks of the lock in it, as long as no breaker removes the link of a process in its span: at most one process is between the success of its lock call and its removal of the link, and the link exists exactly when one is |
| FileLock.StepKeepsInv | termux-x11/lorie/src/main/cpp/libxau/AuUnlock.c:48-54 | a system call keeps the one owner of the token and the one process in its span exactly when it is not a breaker's removal of a token that has an owner or of the link of a process in its span |
| FileLock.StepKeepsSpan | termux-x11/lorie/src/main/cpp/libxau/AuLock.c:64-112 | the part about the link is kept, whoever owns the token, exactly by the system calls that do not break a link in use |
| FileLock.TokenStays | termux-x11/lorie/src/main/cpp/libxau/AuLock.c:98-104 | unless a breaker does, only its owner removes the token file, so a link never fails because the token is gone |
| FileLock.OrphanArises | termux-x11/lorie/src/main/cpp/libxau/AuLock.c:78-112 | a token without an owner arises exactly when a process that created it gives up |
| FileLock.OrphanHappens | termux-x11/lorie/src/main/cpp/libxau/AuLock.c:78-112 | from every start there is such a run: begin, create, fail to link |
| FileLock.OrphanBlocksForever | termux-x11/lorie/src/main/cpp/libxau/AuLock.c:76-112 | from then on no process holds the lock again until a breaker removes the token |
| FileLock.BreakingExactly | termux-x11/lorie/src/main/cpp/libxau/AuLock.c:64-74 | for every reachable state with a token, also after earlier breaks: once a lock call finds the token old, all continuations without a further break have at most one process in its span exactly when there is no other process, whether or not one was in its span |
| FileLock.UninterruptedBreakIsSafe | termux-x11/lorie/src/main/cpp/libxau/AuLock.c:64-74 | for every reachable state: after a break whose system calls nobody interrupts, the same holds exactly when no process was in its span and none was in the middle of a break |
| FileLock.BreakingAdmitsTwo | termux-x11/lorie/src/main/cpp/libxau/AuLock.c:64-74 | from every state with a process in its span, after the break any other process can get the lock too |
| FileLock.BreakIsInterrupted | termux-x11/lorie/src/main/cpp/libxau/AuLock.c:64-74 | a run that fails with nobody in its span when the break begins: the other process locks between the two removals |
| FileLock.TwoBreakers | termux-x11/lorie/src/main/cpp/libxau/AuLock.c:64-74 | a run that fails without such an interruption: two processes find the same orphaned token old and break it one after the other |
| CopyGeometry.VertexStands | termux-x11/lorie/src/main/cpp/lorie/renderer.cpp:799-804 | the drawn vertex of a rectangle's corner, with drawRegion's negated y and the viewport applied, stands at the offset pixel edge |
| CopyGeometry.SamplesCentre | termux-x11/lorie/src/main/cpp/lorie/renderer.cpp:807-811 | at the centre of a destination pixel the texture coordinate is the centre of the source pixel at the offset position |
| CopyGeometry.DrawnPixel | termux-x11/lorie/src/main/cpp/lorie/renderer.cpp:1215-1221 | under the destination's own viewport every covered pixel takes the source pixel at the offset position, clamped to the source's edge, under either filter; every other pixel is unchanged |
| CopyGeometry.MissesDrawNothing | termux-x11/lorie/src/main/cpp/lorie/renderer.cpp:798-818 | a rectangle without a pixel in its destination draws nothing, whatever is attached and under every viewport |
| CopyGeometry.DrawIsCopy | termux-x11/lorie/src/main/cpp/lorie/renderer.cpp:798-818 | drawing a rectangle that lies in the source is the plain copy of it |
| CopyGeometry.CopiedPixels | termux-x11/lorie/src/main/cpp/lorie/renderer.cpp:798-818 | several rectangles of one source: a pixel that any of them covers takes the source pixel before the offset, and every other pixel stays |
| CopyGeometry.RenderBatch | termux-x11/lorie/src/main/cpp/lorie/renderer.cpp:737-823 | the drain loop with its bound id, attachment and viewport draws what the batch function describes |
| CopyGeometry.AttachedIsCopies | termux-x11/lorie/src/main/cpp/lorie/renderer.cpp:767-773 | once a destination is attached, draining is applying the plain copies in schedule order, also to the buffer with id 0; entries with a missing buffer change nothing |
| CopyGeometry.BatchIsCopies | termux-x11/lorie/src/main/cpp/lorie/renderer.cpp:737-823 | for all contents and whatever an earlier drain left attached, the memory after every entry is what the plain copies give exactly when no entry draws a pixel to the buffer with id 0 before an entry for another buffer is bound |
| CopyGeometry.FirstBufferIsMissed | termux-x11/lorie/src/main/cpp/lorie/renderer.cpp:740-773 | a copy to the buffer with id 0 as the first of its drain does not reach it |
| ViewGeometry.PanProperties | termux-x11/lorie/src/main/cpp/lorie/renderer.cpp:856-863 | the pan stays in the picture, shows a cursor that is in the picture, and panning again changes nothing |
| ViewGeometry.PanStays | termux-x11/lorie/src/main/cpp/lorie/renderer.cpp:856-863 | the pan does not move exactly when the cursor is outside the edges, or beyond one the picture cannot move past |
| ViewGeometry.PanMovesLeast | termux-x11/lorie/src/main/cpp/lorie/renderer.cpp:856-863 | it moves to the nearest position in the picture that keeps the cursor off the edges, and to the picture's end where there is none |
| ViewGeometry.RenderedInside | termux-x11/lorie/src/main/cpp/lorie/renderer.cpp:905-926 | a viewport inside the surface grows to a rendered one inside the surface |
| ViewGeometry.RenderedCentre | termux-x11/lorie/src/main/cpp/lorie/renderer.cpp:905-926 | about the same centre, to half a pixel |
| ViewGeometry.ShownAtScale | termux-x11/lorie/src/main/cpp/lorie/renderer.cpp:905-936 | zoomed in, both axes are drawn at the requested multiple of their usual size, up to rounding to whole pixels |
| ViewGeometry.AxisFills | termux-x11/lorie/src/main/cpp/lorie/renderer.cpp:905-936 | on each axis the whole picture is shown where the scaled viewport has room about its centre; elsewhere the rendered viewport takes all the room |
| ViewGeometry.SourceInPicture | termux-x11/lorie/src/main/cpp/lorie/renderer.cpp:928-968 | for every input and every earlier pan state the shown part lies in the picture, and a cursor in the picture lies in it on each axis that pans |
| ViewGeometry.RedrawIsIdempotent | termux-x11/lorie/src/main/cpp/lorie/renderer.cpp:949-968 | redrawing for the same input changes no pan field |
| ViewGeometry.CutKeepsScale | termux-x11/lorie/src/main/cpp/lorie/renderer.cpp:938-947 | the part the keyboard hides changes neither the number of source rows for a rendered row nor the width |
| ViewGeometry.EndsAboveKeyboard | termux-x11/lorie/src/main/cpp/lorie/renderer.cpp:938-947 | the view is cut exactly when the keyboard covers part of it, and then it ends where the keyboard begins |
| ViewGeometry.KeyboardComesAndGoes | termux-x11/lorie/src/main/cpp/lorie/renderer.cpp:949-968 | the keyboard comes, any number of redraws happen and it goes: the vertical position is what it would be had it never come |
| ViewGeometry.Viewer.SetZoom | termux-x11/lorie/src/main/cpp/lorie/renderer.cpp:648-650 | the zoom is clamped to 100 to 400 |
| ViewGeometry.Viewer.Redraw | termux-x11/lorie/src/main/cpp/lorie/renderer.cpp:905-968 | the pan fields become the described ones, including the swap when the keyboard appears or goes |

## Left out

- GpuCopyRefs.ReferenceConservation: the bound of 65536 on each count is a hypothesis about the run; `CountWrapsOnARun` shows that it is needed. The acquire adds to a whole int, so a carry out of the 16-bit count is not modelled.
- GpuCopyRefs.AckKeepsRefs: under the same bound.
- GpuCopyExclusion.CpuGpuExclusion: restricted to runs that acknowledge only completed copies; `GuardKeepsExclusion` covers runs after early acknowledgements.
- GpuCopyExclusion.ExclusionExactly: with the server inside an operation or the mutex taken, only one half is proved (`GuardKeepsExclusion`): scheduling under way may cover a pixmap again.
- GpuCopyDrawing.ScheduledCopyLands: for sources of at most 32767 pixels a side, the X server's limit.
- GpuCopyCode.RendererThread.ApplyPendingGpuCopiesLocked: draws are recorded, not made; `CopyGeometry.RenderBatch` models the drawing.
- GpuCopyCode.XServer.TryScheduleGpuCopy: registering the buffers with the renderer, counting attempts and waking the renderer.
- GPU copies: the 64-bit serial does not wrap; the mutex does not time out and is not reinitialised; neither process dies between draining and publishing; the screen pixmap is not replaced; `lockingPid` and the legacy flip path.
- BufferListsCode.RendererBuffers.FindOnce: one attempt; the loop that sleeps and retries repeats it.
- Renderer buffers: lists are sequences, so the intrusive links are not modelled; sending and receiving buffers over the socket.
- XdmcpWrap: overlap of input and output other than being the same array; the contents of the DES tables; key generation.
- BlockChaining.Wrap and BlockChaining.Unwrap: the block cipher is a function; `XdmcpDes.AuthDoIt` proves the array code of one block against it.
- KeysymSearch: the keymap is a well-formed table; XkbConvertCase is an arbitrary function.
- KeyEventsCode.FindKey: adding a keysym is an arbitrary new keymap with the same keyboard state; which keys NumLock affects is arbitrary; the list of added keysyms in order of use.
- ClipboardTextCode.Utf8ToLatin1: memory of 4294967295 bytes or more is excluded; what lies behind a cached string is taken not to change.
- ClipboardReplies: lookups, allocation and property changes are arbitrary outcomes, fixed during one step; requesting data from the other side; the selection callbacks; clipboard data going out.
- XdmcpBuffers.Buffer.ReadCards: ARRAY8, ARRAY16 and ARRAY32 are one method with two widths, as their code is the same.
- AuthFileCode.Stream.ReadAuth: memory failure while reading.
- AuthFileCode.Stream.ReadCountedString: likewise.
- FileLock: the rename path for file systems without hard links; retries are counted, sleeping is not; which tokens are old enough to break is arbitrary.
- CopyGeometry: exchange of colour channels, rounding of floats, rasterization of partially covered pixels (there are none); sampling the texture that is drawn to, which only a stale attachment leads to, is taken to read its old contents.
- ViewGeometry: rounding of floats, drawing itself, reporting the viewport.
- EGL and GL calls, AHardwareBuffer, pixman, JNI, sockets, start-up, xkbcomp, vertical blanking, cursor conversion: foreign code or easy.
