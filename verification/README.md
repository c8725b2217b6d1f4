# A verified model of the QCA9377 bring-up driver

The driver brings up a QCA9377 WLAN card by polling: it talks to a DMA device through Copy Engine
rings, loads firmware over the boot monitor (BMI), opens an HTC endpoint with credit flow control,
and completes the WMI-TLV handshake. This project models that code in Dafny and proves what it
keeps, promises and, in a few places, does not deliver. `dafny verify dfyconfig.toml` checks it.

## How the model is laid out

| file | part of the driver |
|---|---|
| `Bytes.dfy`, `Common.dfy` | little-endian words, 32-bit wrap, rounding, bit operations; shared types |
| `Rings.dfy` | one source ring and one destination ring, each with its DMA engine |
| `CopyPair.dfy` | `CECopyPair`: a ring pair and a log of what crossed it |
| `Diag.dfy`, `InitConfig.dfy` | the CE7 diagnostic window, and the configuration written through it |
| `Lifecycle.dfy` | DMA regions and ring base registers over create, init, re-init, teardown |
| `Trailer.dfy`, `Htc.dfy` | HTC trailers, framing, credit accounting, connect handshake |
| `Tlv.dfy`, `WmiInit.dfy`, `Wmi.dfy` | TLV parser, INIT command, SERVICE_READY / INIT / READY |
| `Bmi.dfy`, `Fw.dfy` | chunked writes, LZ stream, exchanges; firmware and board containers |
| `LogTail.dfy` | the scrolling log tail |

The device is a second actor. Its steps (latch a descriptor, move one byte, finish, advance an
index, write back a length) are methods of their own, and `Interfere` runs any number of them in any
order; it stands wherever the host reads a register or memory the device shares, the copies out of
the receive and bounce buffers included. A poll is a loop of reads with interference in between, so
every claim about a run covers every interleaving and every timeout. DRRI may advance before or
after the descriptor's length lands. The target's choices (which frame, how many, when) are
nondeterministic; only their number is finite.

`Rings.DestRing.Deliver`, `Rings.SourceRing.CatchUp` and the runs at the end of `Diag.dfy` show the
device model can in fact make progress. Those runs, like the other runs that show something failing,
are sequences of the host's own steps with chosen engine steps in between.

## What was found

* Source ring: the frames the engine takes are the frames rung, in order, lacking at most the last,
  and a frame whose send timed out after its doorbell stays intact and arrives at most once.
* Destination ring: the k-th success reports the k-th frame's length for any number of wraps, with
  or without the write-back race, unless a buffer was posted with 16 outstanding. The masked
  difference `rxArmed` is the number outstanding exactly while that number is below 16
  (`Rings.MaskedDifference`); at 16 it reads 0, and after the next post the host can be told the new
  frame's length for the oldest frame (`Rings.DestRing.OverrunMisreports`).
* The one receive buffer may be read when `rxArmed()` is 0 after a receive, and not otherwise: with
  two to fifteen buffers posted the target can deliver so that the host takes one frame with its
  own length while the buffer holds another (`Rings.DestRing.AliasedReceive`).
* CE7: in step, the window is a memory. A timeout puts it out of step: while fewer than 16 posts are
  outstanding, it is in step if and only if `fDstSw == fDstWrite` (`Diag.CEDiag.InStepTest`), a
  comparison a caller could make. Out of step, for any two addresses and any length, a read can
  succeed with the bytes of the address read before (`Diag.StaleRead`). It is not out of step for
  good: after sixteen such reads every index has come round and it works again
  (`Diag.SixteenLateReads`).
* `initConfig`, started with the engine idle, is sure to publish last exactly when the window is not
  behind. It is behind when `fDstSw != fDstWrite` and each of the next four descriptors the host will
  consume, as far as there are four, holds the length 4 or is about to. In any other case, in step
  or not, it publishes last for every memory (with the five areas apart), schedule and failure
  (`InitConfig.Configure`). From every window that is behind, whatever the lag, there is a memory (`InitConfig.SpoilingMemory`) on
  which it can set the done bit with no table written (`InitConfig.PublishedWithoutTables`); one
  timed-out read of one word on a fresh window is enough (`InitConfig.LateReadThenConfigure`).
  The driver's caller does go on after failed reads (`skeleton/QCA9377Driver.cpp:848-866`), but its
  two reads are 4 and 32 bytes long, and for that reason alone a configuration out of step fails
  before its first write (`InitConfig.ProbeThenConfigure`).
* The window's address map is contiguous exactly when a transfer crosses no 1 MiB boundary above the
  first (`Diag.ContiguousExactly`).
* A successful re-init of the control pair leaves the old region allocated and no object referring
  to it; so does an init that finds the engine dead. `Lifecycle` accounts for such memory (`lost`)
  and proves it is never freed, and never dangling either.
* The magic checks of both containers pass when the file ends inside the padding after the magic;
  the remaining length then wraps, and the first header is read past the end. `Fw.MagicPadWraps`
  says exactly for which lengths, and both parsers report it (`escaped`).
* An HTC send that times out after its doorbell is not charged, though the target takes the frame
  and may return its cost: credits in hand then exceed the allotment with an honest target
  (`Htc.Htc.RefundedTimeout`). That is the only way: while no more is returned than the frames rung
  cost, credits never exceed the allotment by more than the cost of the sends that timed out so,
  and if every command returned true they never exceed it (`Htc.Htc.CreditsBounded`, `Htc.AnyRun`).
* The connect request for WMI control carries the low byte of the credit count, while the host opens
  its ledger with all 16 bits: the two agree exactly below 256 credits (`Htc.ConnectRequestReads`).
* `sendWmi` divides by the credit size, which is 0 until a READY was read and may be 0 again after a
  READY that failed; the model reports where it does so (`trapped`).

Where comments and code disagree the model follows the code: `tlvParse` keeps the last record of a
tag (the comment at `skeleton/WMI.cpp:126` says first); `selectBoard` walks a flat list (the header
at `skeleton/FW.hpp:18-22` describes nested elements), so no board of a nested file is ever found;
the comment at `skeleton/WMI.cpp:22` reads the second name-space word as "LM", its bytes in memory
are "ML"; the comment at `skeleton/HTC.cpp:174-177` has the loop arm at the top of each turn, while
`waitServiceAndReady` arms once before it and then after each event.

## Model

| member | source | states |
|---|---|---|
| Rings.MaskedDifference | skeleton/CE.hpp:65 | the masked index difference equals the number outstanding if and only if fewer than 16 are; at 16 it is 0 |
| Rings.BudgetWraps | skeleton/CE.cpp:292 | a poll budget is twenty reads a millisecond up to 4,294,967 ms; one more and the 32-bit product leaves 14 reads |
| Rings.SourceRing.Send | skeleton/CE.cpp:228-273 | for every interleaving: at most this frame is rung, it is rung whenever the ring was idle and the length legal; it returns true if and only if it rang the frame and the engine has taken it; a legal frame fails only after a whole budget of reads; ring invariant kept |
| Rings.SourceRing.Interfere | skeleton/CE.cpp:238-272 | any engine steps keep the ring a FIFO: frames taken only grow and stay a prefix of those rung, the pending frame and descriptor intact |
| Rings.SourceRing.FillAndRing | skeleton/CE.cpp:249-262 | buffer, descriptor, doorbell in that order, with the engine running in between, adds exactly one whole frame |
| Rings.SourceRing.IdleIffCaughtUp | skeleton/CE.cpp:236-246 | the single register comparison SRRI against the write index decides exactly whether a frame is in flight |
| Rings.SourceRing.CatchUp | skeleton/CE.cpp:264-272 | from every reachable state the engine can finish: a timed-out frame still arrives whole |
| Rings.DestRing.PostRecv | skeleton/CE.cpp:275-288 | adds one posted buffer in every state; below 16 outstanding it disturbs no completion, landed or not; at 16 it reuses the oldest descriptor, which is recorded as an overrun |
| Rings.DestRing.RecvWait | skeleton/CE.cpp:290-321 | success consumes exactly the next completion and, without an overrun, reports its frame's length, even when DRRI ran ahead of the write-back; if `rxArmed` is then 0 the buffer holds that frame; failure consumes nothing; a landed completion is always found; a failure has polled its whole budget |
| Rings.DestRing.LengthsInOrder | skeleton/CE.cpp:298-315 | without an overrun, the k-th length received is that of the k-th frame delivered, over any number of wraps |
| Rings.DestRing.RxArmedIsOutstanding | skeleton/CE.hpp:63-65 | in every reachable state `rxArmed` is posted minus consumed if and only if fewer than 16 are outstanding |
| Rings.DestRing.AliasedReceive | skeleton/CE.hpp:198-201 | from any state with two to fifteen buffers posted and none used, and any two frames differing in their first byte, a receive can succeed with the first frame's length while the buffer holds the second; no more than the two frames need be left to send |
| Rings.DestRing.OverrunMisreports | skeleton/CE.cpp:275-315 | sixteen is sharp: from any state with sixteen buffers posted and all used, one more post and one more frame of another length, and the host takes the oldest frame with the newest one's length |
| Rings.DestRing.IndexFacts | skeleton/CE.cpp:299-300 | DRRI never differs from the consume index without a completion waiting, and always does with 1 to 15 waiting |
| CopyPair.CECopyPair.Send | skeleton/CE.cpp:228-273 | the pair's log gains at most this frame, true is returned if and only if it did and the engine has taken it, and the receive side only moves forward |
| CopyPair.CECopyPair.PostRecvIfIdle | skeleton/CE.hpp:205 | posts exactly when `rxArmed` is 0, which below 16 outstanding is exactly when none is: the shared buffer is never posted twice |
| CopyPair.CECopyPair.RecvWait | skeleton/CE.cpp:290-321 | takes the target's next frame, no skip and no repeat; with none left posted, the host's buffer holds that frame whole |
| CopyPair.CECopyPair.Interfere | skeleton/HTC.cpp:178-221 | whatever both engines do between a receive and the copy out of the buffer, the buffer is unchanged when none is posted, and no bookkeeping moves |
| CopyPair.AnyRun | skeleton/CE.cpp:228-321 | over any sequence of calls, any number of posts and timeouts: frames taken equal frames rung or lack only the last, log consistent with both rings, and lengths in order unless a post overran the ring |
| Diag.ToCeBits | skeleton/CE.cpp:377-387 | the masks, shift and ORs of the driver's expression give the address map used here, for every 32-bit register value and address |
| Diag.AliasesExactly | skeleton/CE.cpp:383-385 | two addresses share a cell if and only if they lie on the same side of 1 MiB and agree in the low 20 bits |
| Diag.ContiguousExactly | skeleton/CE.cpp:383-385 | a transfer is contiguous in the map if and only if it crosses no 1 MiB boundary past the first |
| Diag.CEDiag.TargetByteByByte | skeleton/CE.cpp:453-456 | within one window the slice a transfer moves is the target's memory address by address |
| Diag.CEDiag.InStepTest | skeleton/CE.cpp:430-441 | while fewer than 16 posts are outstanding, all indices agree and nothing is unfinished if and only if `fDstSw == fDstWrite`, which is if and only if none is outstanding |
| Diag.CEDiag.Interfere | skeleton/CE.cpp:417-440 | whatever the engine does: a window in step stays in step with memory unchanged, transfers are done in the order asked, a lone transfer's progress is exactly what memory shows, and unfinished reads touch the bounce buffer alone |
| Diag.CEDiag.Xfer | skeleton/CE.cpp:389-447 | true if and only if the completion taken shows this transfer's length, and none is taken only after 200 polls; in step, it ends in step with the bytes moved, or times out with exactly this transfer unfinished; out of step, a success was the oldest unconsumed transfer's, which until the ring wraps had the same length; and on any window, wrapped or not, a descriptor that shows and awaits only other lengths is never taken for a success |
| Diag.CEDiag.ReadMem | skeleton/CE.cpp:449-458 | in step, a legal call completes exactly one transfer or times out, success returns the target's bytes, and nothing but the bounce buffer changes; after any run of reads alone, in step or not, nothing else changes either |
| Diag.CEDiag.WriteMem | skeleton/CE.cpp:460-468 | in step, a legal call that does not itself time out leaves the data at the target address, whatever it returns; even a timed-out one changes nothing outside bounce buffer and range |
| Diag.WriteThenRead | skeleton/CE.cpp:449-468 | a read after a successful write returns the bytes written |
| Diag.StaleRead | skeleton/CE.cpp:423-446 | for every window in step, all addresses a and b and every length 1 to 512: after a read of a that times out, a read of b can succeed with a's bytes, so rightly only if the two stretches agree |
| Diag.CEDiag.LaggingRead | skeleton/CE.cpp:430-457 | for every drained window whose consume and write indices differ, whatever the lag, a read can run so that it succeeds if and only if the oldest unconsumed descriptor shows its length, and then it returns what the bounce buffer held before |
| Diag.SixteenLateReads | skeleton/CE.cpp:403-441 | sixteen late reads from no post outstanding leave sixteen outstanding and the window in step again |
| InitConfig.Configure | skeleton/QCA9377Driver.cpp:602-668 | with the engine idle, the areas apart and the window not behind, with any operation failing anywhere and any late completion: the done bit is never newly set unless the cleared L1 bit, pipe table, service map and early-alloc word are in place, nothing else changes, and success has all five areas; out of step but not behind, or with reads unfinished and an odd length among the next four, it fails and touches nothing; from any window it returns true if and only if all eleven transfers took a completion of their own length, and else stops at the first that did not or, in step, at a null pointer |
| InitConfig.ProbeThenConfigure | skeleton/QCA9377Driver.cpp:848-868 | the caller's sequence on a fresh window, both preceding reads allowed to fail: it still publishes last, with no assumption on how the window stands when the configuration starts |
| InitConfig.PublishedWithoutTables | skeleton/QCA9377Driver.cpp:604-630 | the other half: from every window that is behind, by whatever lag, on every spoiling memory, the configuration's first five transfers can succeed and set the done bit, changing nothing but the option flags |
| InitConfig.SpoilingMemory | skeleton/QCA9377Driver.cpp:604-630 | for every window and bounce buffer there is a spoiling memory: its areas apart, its done bit clear, its tables not in place |
| InitConfig.LateReadThenConfigure | skeleton/QCA9377Driver.cpp:604-630 | the whole run from any window in step: one read of one word times out, and on a spoiling memory the configuration's first transfers set the done bit without the other areas |
| InitConfig.SuccessIsDone | skeleton/QCA9377Driver.cpp:657-663 | a successful configuration is a published one |
| InitConfig.PublishedTables | skeleton/QCA9377Driver.cpp:633-643 | once the areas are in place the target, following its own pointers, reads the seven pipes and seventeen routes entry by entry |
| InitConfig.RoutesAgree | skeleton/QCA9377Driver.cpp:563-581 | every route names a pipe of the table that runs in the route's own direction; the last is the terminator, and no other is |
| InitConfig.RoutesAreDistinct | skeleton/QCA9377Driver.cpp:563-581 | every service has exactly one route out and one in |
| InitConfig.RoutesMatchPairs | skeleton/QCA9377Driver.cpp:572-575 | WMI control and the reserved control service run over the engines the driver brings its two pairs up on, and the pipes take whole ring buffers |
| InitConfig.PipesAreEngines | skeleton/QCA9377Driver.cpp:549-557 | pipe k describes engine k, with a power of two of entries |
| InitConfig.FlagsBits | skeleton/QCA9377Driver.cpp:626-630 | every bit of the config flags is kept except the L1 bit, which is clear |
| InitConfig.AllocBits | skeleton/QCA9377Driver.cpp:646-655 | every bit of the early-alloc word is kept, and the magic and bank-count bits are set |
| InitConfig.Flag2Bits | skeleton/QCA9377Driver.cpp:657-663 | every bit of the option flags is kept, and bit 4 is set |
| Lifecycle.Bus.Allocate | skeleton/CE.cpp:55-138 | a region disjoint from all others, below 4 GiB, or nothing |
| Lifecycle.Bus.Free | skeleton/CE.cpp:140-156 | a region may go only when no register points into it, and then every register is still harmless |
| Lifecycle.Bus.WriteBase | skeleton/CE.cpp:214-217 | each base-register write, in every intermediate state, leaves every register untouched, zero or with its ring inside allocated memory |
| Lifecycle.Pair.Init | skeleton/CE.cpp:184-226 | succeeds if and only if it is given memory and neither of its engines is dead, and then both rings are programmed into its new region; without memory nothing changes; a dead engine leaves registers alone and keeps the region |
| Lifecycle.Layout | skeleton/CE.cpp:55-70 | rings and buffers fit their pages, and the pages a pair and the window allocate |
| Lifecycle.Pair.Teardown | skeleton/CE.cpp:158-182 | both registers are parked before the region is freed, and only that region goes |
| Lifecycle.Window.Init | skeleton/CE.cpp:470-499 | as for a pair, on CE7's two registers |
| Lifecycle.Window.Teardown | skeleton/CE.cpp:501-513 | both CE7 registers are parked before the region is freed |
| Lifecycle.Manager.Init | skeleton/CE.cpp:344-354 | frees nothing; the old pair's region becomes lost; a success owns the one region newly given and loses nothing else, a failure loses exactly that one, if any was given; true exactly if memory was given and CE0 and CE1 are alive |
| Lifecycle.Manager.InitWmi | skeleton/CE.cpp:356-368 | idempotent once up; nothing is freed; a success loses nothing, a failure at most the one region newly given; if not up, true exactly if memory was given and CE3 and CE2 are alive |
| Lifecycle.Manager.InitDiag | skeleton/CE.hpp:211-219 | idempotent once up; a failure restores the regions exactly, losing nothing; if not up, true exactly if memory was given and CE7 is alive |
| Lifecycle.Manager.Destroy | skeleton/CE.cpp:336-342 | frees exactly the regions owned, none that was lost |
| Lifecycle.Driver.EnsureCE | skeleton/QCA9377Driver.cpp:409-426 | a manager with a control pair or no manager at all, with every register harmless; it succeeds, and keeps the manager there was, unless memory is refused or an engine dead meanwhile; from no manager, success loses nothing; from one, its control region is lost, never freed, whatever follows |
| Lifecycle.Driver.TeardownHardware | skeleton/QCA9377Driver.cpp:900-906 | only lost memory stays allocated |
| Lifecycle.AnyRun | skeleton/QCA9377Driver.cpp:409-426 | over any sequence of ensure, window, WMI and teardown calls with any failures, and wherever it stops: no register dangles, and the memory allocated is exactly what some object owns or what was lost, never both; torn down, only lost memory |
| Trailer.RecordsAreTheLongestPrefix | skeleton/HTC.cpp:83-99 | every byte string has a longest prefix of complete records, and the specification finds it |
| Trailer.LongestPrefixIsUnique | skeleton/HTC.cpp:83-99 | there is only one |
| Trailer.EncodedRecordsRoundTrip | skeleton/HTC.cpp:80-98 | an encoded record list decodes to itself |
| Htc.Htc.AddRecords | skeleton/HTC.cpp:84-99 | for every trailer the nested loops stay in bounds, end, and add exactly the credits its longest prefix of complete records reports for our endpoint |
| Htc.Htc.ApplyCreditReport | skeleton/HTC.cpp:78-100 | the ledger invariant is kept: counter equals allotted plus returned less charged, modulo 2^16 |
| Htc.PayloadAndTrailerPartition | skeleton/HTC.cpp:206-221 | payload and trailer partition the declared body of every accepted frame |
| Htc.DecodesTargetFrame | skeleton/HTC.cpp:181-221 | any payload and trailer a target frames is recovered exactly, with any flags and slack |
| Htc.SentFrameRoundTrip | skeleton/HTC.cpp:150-162 | every payload of 1 to 2040 bytes gives a frame the ring accepts, and decoding it gives the payload and no credits |
| Htc.WmiFrameReads | skeleton/HTC.cpp:150-162 | a sent frame is accepted for its own endpoint and no other, asks for a credit update, and carries its length and sequence number |
| Htc.TargetCredits | skeleton/HTC.cpp:196-205 | a target's trailer counts if and only if bit 1 of the flags announces it |
| Htc.CtrlFrameReads | skeleton/HTC.cpp:109-121 | a control frame is for endpoint 0, asks for no credits, and decodes to its payload |
| Htc.ConnectRequestReads | skeleton/HTC.cpp:280-300 | the target reads message 2, the service, and flags that disable credit flow exactly for services other than WMI control; the credit count it reads is the host's if and only if that is below 256 |
| Htc.TargetReadyFrame | skeleton/HTC.cpp:251-267 | a READY as a target builds it (message 1) is read as such, with its credit count and size |
| Htc.TargetResponse | skeleton/HTC.cpp:306-331 | a connect response as a target builds it (message 3) grants exactly the service it names, with status 0 |
| Htc.NeededIsLeast | skeleton/HTC.cpp:140 | the cost charged is the least number of credits that covers the payload |
| Htc.Htc.SendWmi | skeleton/HTC.cpp:128-170 | at most one frame is rung, this payload's; true if and only if it is rung and the engine has taken it; every attempt uses up one sequence number; the ceiling cost is deducted exactly on success, never below zero; a frame rung but timed out is counted as unpaid; every attempt leaves exactly one buffer posted; the division by a zero credit size is reached exactly when connected with a legal length, before anything is done |
| Htc.Htc.RecvWmi | skeleton/HTC.cpp:172-222 | consumes nothing, or the target's next frame: its credits are applied once and its payload copied exactly as the device wrote it, with no buffer left posted; frames already delivered stay the next to be taken; taking nothing, it has polled its whole budget |
| Htc.Htc.ArmRecv | skeleton/CE.hpp:201 | afterwards exactly one buffer is posted |
| Htc.Htc.CreditsConserved | skeleton/HTC.cpp:140-169 | if the target never returned more than was charged, credits in hand and out make up the allotment, with no wrap; more generally whenever the excess still fits |
| Htc.Htc.CreditsBounded | skeleton/HTC.cpp:140-169 | while the target has returned no more than the frames rung cost, credits in hand exceed the allotment by at most the cost of the sends timed out after their doorbell, and not at all if there was none |
| Htc.Htc.RefundedTimeout | skeleton/HTC.cpp:163-169 | for every legal payload that can be paid for, from any state with one buffer posted and both engines idle: the send times out, the frame is taken late, the target returns its exact cost, and credits in hand have grown by it with nothing charged |
| Htc.Htc.WaitTarget | skeleton/HTC.cpp:226-278 | consumes frames until one reads as READY, at most one a poll step; success leaves both credit parameters positive; if no buffer was left posted, only the last frame may be READY, and if it is long enough the parameters are its bytes and true is returned exactly if both are positive; otherwise false, and the parameters are as before; every turn posts the buffer |
| Htc.Htc.SendCtrlFrame | skeleton/HTC.cpp:104-124 | rings at most this payload's frame, refusing more than 256 bytes; true if and only if it is rung and taken; numbers every attempt |
| Htc.Htc.ConnectService | skeleton/HTC.cpp:280-343 | posts the buffer, rings the request or not, and takes the response or not; with both and no buffer left posted, true if and only if the response grants that service; WMI control opens a ledger at the full credit count, otherwise the ledger is untouched |
| Htc.AnyRun | skeleton/HTC.cpp:128-222 | for any script of commands, receives and arms: never two buffers posted; credits returned are the sum over frames taken; the charge is the sum of ceiling costs of exactly the commands that returned true, and with the unpaid ones makes the cost of all frames rung; the counter is allotment plus returns less charge modulo 2^16, and exactly that while the excess returns over any prefix of the run fit beside the allotment; with an honest target it is at most allotment plus unpaid, and at most the allotment if every command returned true; then also every frame carries the number of commands before it, modulo 256 |
| Htc.ExcessIsMost | skeleton/HTC.cpp:84-99 | the excess that claim is about is the most by which, after any call of the run, returns exceeded charges, and 0 exactly if they never did |
| Tlv.ParseIffTiles | skeleton/WMI.cpp:55-79 | the parse succeeds with a record list if and only if the bytes tile completely into exactly it |
| Tlv.TilingIsUnique | skeleton/WMI.cpp:62-77 | no byte string tiles in two ways |
| Tlv.LastOfIsLast | skeleton/WMI.cpp:71-74 | the value shown for a tag is that of the last record carrying it, and none is shown if and only if no record does |
| Tlv.TlvParse | skeleton/WMI.cpp:55-79 | true exactly on streams that tile; the table then shows, for every tag below its size, the last such record |
| WmiInit.InitParses | skeleton/WMI.cpp:250-290 | for every 44-word configuration, the 232-byte command tiles despite its zero gaps, and both structs and the empty chunk array are recovered under tags 74, 75 and 18 |
| WmiInit.InitIdentifies | skeleton/WMI.cpp:19-24 | the first struct reads as ABI 1.0 revision 53, the name space "QCA_ML", and no host memory chunks |
| WmiInit.BuildInit | skeleton/WMI.cpp:250-288 | writing in place yields exactly that command |
| Wmi.Wmi.ParseServiceReady | skeleton/WMI.cpp:89-145 | true exactly for a long enough struct and a whole-word bitmap; the fields are recorded even when the bitmap then fails |
| Wmi.Wmi.ParseReady | skeleton/WMI.cpp:147-173 | true exactly for a long enough struct, whose bytes 24 to 29 become the MAC |
| Wmi.Wmi.SendInit | skeleton/WMI.cpp:250-290 | rings at most one frame, the command under the current sequence number, does so whenever connected, in credit and idle, succeeds if and only if it is rung and taken, and charges it exactly then; on a zero credit size, and only there, the division traps with nothing rung |
| Wmi.SentInitParses | skeleton/WMI.cpp:250-290 | for every configuration, endpoint and sequence number, the INIT frame decoded by the receiver's framing and parsed as TLV gives back command 1, both structs and the empty chunk array |
| Wmi.EventIdReads | skeleton/WMI.cpp:314 | the event id is the low 24 bits of the first word, whatever its top byte |
| Wmi.TargetServiceReady | skeleton/WMI.cpp:89-145 | a SERVICE_READY as a target builds it (event 1, struct under tag 32, bitmap under tag 16) is accepted, and announces the firmware exactly if one of the struct's first two words is not 0 |
| Wmi.TargetReady | skeleton/WMI.cpp:147-173 | a READY as a target builds it (event 2, struct under tag 35) is accepted |
| Wmi.Wmi.AwaitService | skeleton/WMI.cpp:301-321 | from a fresh state, true if and only if the last frame announces the firmware, all before it skipped; else it ended on a rejected event, or on a receive that polled its whole budget, the caller's for the first event and ten seconds later; nothing is sent meanwhile; terminates on every run |
| Wmi.Wmi.AwaitReady | skeleton/WMI.cpp:331-346 | at most five frames are taken; true if and only if the last is a READY, all before it skipped, and then the MAC is its bytes; else it ended on a rejected event, a fifth skipped one, or a receive that polled ten seconds |
| Wmi.Wmi.WaitServiceAndReady | skeleton/WMI.cpp:294-347 | the whole order: no INIT before an announcing SERVICE_READY, at most one INIT; true if and only if INIT was sent, and charged, and a READY follows at most four skipped events, whose bytes are the MAC; every failure is a rejected event, an INIT not sent, a fifth skipped event or a whole budget polled in vain; it traps exactly where INIT is due on a zero credit size; a buffer stays posted save after a frame without an event |
| Bmi.WriteMeans | skeleton/BMI.cpp:94-127 | replaying any prefix of the frames writes exactly the chunks they carry and nothing outside them rounded up to words |
| Bmi.WriteFrameSizes | skeleton/BMI.cpp:106-121 | frames are at most 256 bytes and whole words; only the chunk ending the buffer is short |
| Bmi.Bmi.WriteMemory | skeleton/BMI.cpp:94-127 | the frames rung are the buffer's first chunks in order, at least one if the ring was idle, for every length and address; true if and only if the buffer is not empty, all chunks are rung and all are taken |
| Bmi.Bmi.SendStream | skeleton/BMI.cpp:179-205 | the payloads concatenate to a prefix of the padded buffer; true if and only if to all of it with every frame taken; each is a positive multiple of 4 up to 248 bytes |
| Bmi.DataFeeds | skeleton/BMI.cpp:179-205 | a start and whatever good data frames follow it are, to the target, one stream to the start's address |
| Bmi.Bmi.FastDownload | skeleton/BMI.cpp:156-214 | a target replaying the frames opens one stream at `addr`, feeds it a prefix of the buffer padded with the fewest zeros to whole words, and closes it with a stream at 0; true if and only if all of that was rung and taken |
| Bmi.Bmi.ExchangeWait | skeleton/BMI.cpp:22-46 | success is one command rung and the target's next frame taken, and the response is that frame, whole up to the length asked, whenever `rxArmed` is 0 afterwards with no overrun; after DONE it always refuses, touching nothing; true if and only if a response was taken that is no shorter than asked, and the stage recorded tells every failure apart |
| Bmi.Bmi.ReadMemory | skeleton/BMI.cpp:76-92 | refuses 0 and more than 256 bytes; otherwise true if and only if a response of at least that many bytes was taken, of which exactly that many are returned |
| Bmi.Bmi.Done | skeleton/BMI.cpp:216-227 | rings at most the DONE command; true if and only if it is rung and taken, which closes the monitor |
| Fw.WalkRoundTrip | skeleton/FW.cpp:49-86 | for every element list, padding and unpadded last element, walking the encoding recovers the list |
| Fw.WalkIsExact | skeleton/FW.cpp:49-86 | every byte string is the encoding of what the walk visits, up to a tail shorter than a header or, exactly when the walk calls it truncated, an element announcing more than is left |
| Fw.LastBodyIsLast | skeleton/FW.cpp:68-75 | the element kept is the last with its id |
| Fw.VersionIsLast | skeleton/FW.cpp:60-67 | the version is the body of the last element of id 0 with fewer than 63 bytes, and empty if there is none |
| Fw.ParseFirmware | skeleton/FW.cpp:29-94 | reads past the container exactly on the bare magic; otherwise accepts exactly containers with the magic, no truncated element and a non-empty last image; the slices returned lie inside, word-aligned, and are the last image and OTP; the version is the last under 63 bytes |
| Fw.ImageRoundTrip | skeleton/FW.cpp:29-94 | for every element list the whole container is accepted if and only if its last image is non-empty |
| Fw.OverlongFails | skeleton/FW.cpp:54-58 | an element announcing more than is left makes the container unacceptable, wherever it stands |
| Fw.MagicPadWraps | skeleton/FW.cpp:37-49 | the first header lies inside the container exactly when the length is not 11 (firmware), or is at least 20 (board) |
| Fw.MagicsDiffer | skeleton/FW.cpp:31-106 | both magics end in a terminator, so neither kind of container starts like the other |
| Fw.BoardName | skeleton/FW.cpp:112-126 | the generated name has 75 bytes for every pair of ids, so its buffer never truncates it |
| Fw.NameReads | skeleton/FW.cpp:112-126 | bytes 49 to 52 of the name spell the vendor in hexadecimal, 71 to 74 the device, and the rest is the fixed text |
| Fw.NameInjective | skeleton/FW.cpp:116-120 | two cards share a name only if both ids agree |
| Fw.SelectBoard | skeleton/FW.cpp:96-156 | reads past the file exactly on the magic with less than its padding; otherwise finds the first data element whose nearest preceding name is this card's, inside and word-aligned, if and only if there is one |
| Fw.FlatFileRoundTrip | skeleton/FW.cpp:128-152 | a flat file is walked whole |
| Fw.SelectFromFlatFile | skeleton/FW.cpp:128-152 | any flat file holding this card's name directly before a data element yields board data, that element's or an earlier one's under the same name |
| Fw.NestedNeverFound | skeleton/FW.hpp:18-22 | no board of a nested file is ever found, whatever its wrappers hold |
| LogTail.TailIsSuffix | skeleton/QCA9377Driver.cpp:681-714 | over any run of messages the buffer is exactly a suffix of the log of capped lines, and fits |
| LogTail.NewestIsWhole | skeleton/QCA9377Driver.cpp:707-711 | the final clamp never truncates: the newest line is always there whole |
| LogTail.DropsOnlyWhenFull | skeleton/QCA9377Driver.cpp:694-706 | nothing is dropped while the message and its terminator fit; otherwise half, up to just after the next newline |
| LogTail.CutIsNear | skeleton/QCA9377Driver.cpp:698-705 | of whole lines, a drop ends just after a newline, within 255 bytes of half |
| LogTail.TidyTail | skeleton/QCA9377Driver.cpp:681-714 | of newline-terminated lines up to 255 bytes, the buffer starts on a line boundary and holds the last 513 bytes or all there are |
| LogTail.LogTail.QLog | skeleton/QCA9377Driver.cpp:681-714 | the in-place array holds exactly the specification's next contents, NUL-terminated |
| LogTail.AnyRun | skeleton/QCA9377Driver.cpp:681-714 | any run of calls leaves the array at the specification's tail, a suffix of the log |

## Left out

- CopyPair.CECopyPair.Send: the receive engine's steps during a send are run after it; the two rings share no memory and `send` reads nothing of the receive side.
- Rings.DestRing.RecvWait: after an overrun, lengths are bounded by the buffer's size and no more is claimed of them.
- Diag.CEDiag.Xfer: once a descriptor was reused before the engine came to it (a seventeenth post unfinished), only the indices are followed until the window is next in step.
- Diag.CEDiag.constructor: the bounce buffer is assumed to lie outside the 2 MiB of bus addresses the window covers; every CE7 result rests on it. CORE_CTRL, read on every transfer, is a constant of the window.
- InitConfig.Configure: on areas that overlap in the address map the claim of publishing last is not made, since no memory could hold all five; with the engine still at work, a window out of step is covered only if it is mistimed in the sense stated.
- Wmi.Wmi.WaitServiceAndReady: a second call after a SERVICE_READY whose bitmap failed sends INIT at once, since the fields are already recorded; the contract says so and claims no new SERVICE_READY then.
- Fw.ParseFirmware: what is read past the end of the bare magic, and what follows from it, is not modelled; likewise in `Fw.SelectBoard`.
- LogTail.LogTail.QLog: `vsnprintf` is its result, the formatted text; a negative result returns like an empty one. The NVRAM mirror is I/O.
- Device assumptions: the engines' indices are 0 after `init`, which zeroes only the host's; a frame delivered has 1 to 2048 bytes; host writes reach the device in order; the target sends finitely many frames.
- IOKit allocation, mapping and DMA commands: an abstract region with a base address that may fail to be allocated; CPU addresses, the descriptor poisoning on teardown and the null checks on unmapped registers are not modelled.
- Leak freedom of DMA regions: the code as written does not deliver it; lost memory is accounted for instead.
- Values of the resource configuration and register offsets: opaque, except the two tables and words `initConfig` writes.
- `configureTarget`, `downloadBoardData`, `runOtp`, `doneAndWaitTargetInit`, `getTargetInfo`, `execute`, `setupComplete`: fixed sequences of the operations modelled here.
- Reset sequencing, wake-up, register probes, PCI configuration, logging text and published properties: device reads and delays with nothing to relate.
- Real time: a poll is a bounded number of reads.
