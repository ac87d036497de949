# Verified model of avserver: G.711 codec, AVI recorder, P2P broadcasting

Three parts of the server are modelled and proved.

**The G.711 routines (`src/g711s.s`).** `Words.dfy` gives 32-bit words as integers with shifts and bitwise operators;
`Arm.dfy` is the part of the ARM instruction set the routines use (conditional execution, the barrel shifter and its
carry, the N, Z, C and V flags, forward branches), both as a function `Run` and as a class `Cpu` that overwrites registers
and flags in place. `G711Code.dfy` lists the four routines instruction by instruction. `G711Decoders.dfy` and
`G711Encoders.dfy` execute them symbolically and prove that they compute the closed forms of `G711.dfy` on every 32-bit
register value; nothing is excluded, so the closed forms include what happens at -2^31, in the band -7..-1 of the A-law
encoder, and where the mu-law bias overflows. `Companding.dfy` and `G711Laws.dfy` prove the companding laws of ITU-T
Recommendation G.711, section 3, about those closed forms, and `G711Codec.dfy` brings them back to the routines.

Four properties one would expect are false of the code, and are stated with the exact condition under which they hold:
A-law accuracy (fails in -7..-1, where the magnitude is negative before an unsigned shift and the code is 0x5A, which
decodes to -248, and past overload), A-law monotonicity (fails across that band and from -2^31), mu-law monotonicity
(fails for samples whose bias of 132 overflows: 2^31-1 comes back as 0), and recoding of mu-law negative zero (0x7F comes
back as 0xFF).

**The recording thread (`Avi_save`) and the control socket's table (`Avi_Ctrl`) in `src/avi_save.c`.** `AviHistory.dfy`
says what a history of locks, probes, written frames and files must look like, without mentioning the thread's variables.
`AviPump.dfy` is the thread as a function of what the frame store and the environment answer, with the proof that every
run of any length has such a history; `AviProgress.dfy` says exactly which events a reply causes, that the loops give
every reply and every setting its turn, and that a stream is recorded without a gap; `AviRecorder.dfy` is the thread as
nested loops over mutable fields. The frame store
is an oracle: each turn of the inner loop gets an arbitrary answer to its lock request and an arbitrary newest serial. A
successful lock carries a serial of at least 1 and takes one reference if the thread accepts the reply; whether the store
also keeps a reference for a successful reply that the thread then rejects (an older serial, or no data) is left open: the
answer says so (`stray`), and the laws count such references apart. With no strays the laws read as if those tests came
before the lock. `m_Quit` is seen where the answers end. `AviControl.dfy` is the descriptor table, under the assumptions
that `select` reports only descriptors it was given and that `accept` returns a positive descriptor not in use. Its laws
say who is accepted, read and closed in a round from what the system calls report.

`rec_frames` is never reset, so only the first full file is sure to hold its frame total; every later full file holds at
most one frame unless the total was raised. `avi_finish` is never reset either, so after a full file an interrupted one is
left open. Setting `SerialLock` to 0 at the start of a file forgets the lock on the last frame of the file before.

**P2P clients (`src/p2p.c`).** `P2pRegistry.dfy` is the client table with the saturating counter `p2p_send_status`, and the
broadcast loop. `P2pSessions.dfy` interleaves the acceptor, the session threads and the broadcaster at atomic steps;
`P2pEffects.dfy` says what each step does and what a schedule leaves behind, and `P2pStarvation.dfy` has two schedules that
go wrong.
"A zero counter means no enabled client" is false of the code: a session thread unregisters its client when it ends
whether or not the client is enabled, and takes another client's count with it when it is not. That happens to a session
that never started video, or stopped it (`QuietDisconnectStarves`), and in the ordinary course of a connection that breaks:
the broadcast drops the streaming client on a terminal error (`src/p2p.c:801`) and its thread then unregisters it again
(`src/p2p.c:693`), as in `DroppedDisconnectStarves`; `DropAndLeave` says when. `LeavingCoversExactly`,
`UnregisterCoversExactly` and `StarvedExactly` give the exact conditions, and `TidySchedules` the schedules in which it
cannot happen.

## Model

| member | source | states |
|---|---|---|
| Words.BitwiseMeaning | src/g711s.s:9-18 | AND, ORR and EOR act on every bit position independently; the reference meaning of the bitwise operators |
| Arm.CompareFlags | src/g711s.s:30-40 | after CMP the GE condition is the signed comparison, overflow included |
| Arm.Cpu.Issue | src/g711s.s:8-90 | one instruction, executed in place on registers and flags, has exactly the effect of the instruction semantics |
| Arm.Cpu.Execute | src/g711s.s:8-90 | running a routine in place to its return leaves the registers and flags the recursive semantics gives |
| Arm.ArithmeticFlags | src/g711s.s:12-18 | addition and subtraction are modulo 2^32; C is the unsigned and V the signed overflow |
| Arm.WriteStep | src/g711s.s:8-90 | an instruction without S writes one register if its condition holds, and otherwise nothing |
| G711Code.CountDown | src/g711s.s:13-16 | SUBS r1,r1,#1 leaves LT for segment 0 and GT for the segments that shift |
| G711Encoders.AlawNegate | src/g711s.s:23-25 | RSBS makes LE mean "sample not negative", and sets V for -2^31 only |
| G711Encoders.AlawBranch | src/g711s.s:27-29 | MOVS leaves V alone, so the branch is taken for magnitudes below 16 or when the negation overflowed |
| G711Encoders.HalvingStep | src/g711s.s:30-32 | one compare-shift-count step, for either encoder's counter register |
| G711Encoders.Search | src/g711s.s:30-40 | the whole search leaves the segment in the counter, and 0 for a word that is negative as a signed number |
| G711Encoders.UlawNoBranch | src/g711s.s:59-60 | the branch at line 60 is never taken |
| G711Encoders.LinearToAlawRuns | src/g711s.s:22-50 | for every register state the routine returns the closed-form A-law code of the sample in r0 |
| G711Encoders.LinearToUlawRuns | src/g711s.s:52-79 | for every register state the routine returns the closed-form mu-law code of the sample in r0 |
| G711Decoders.AlawToLinearRuns | src/g711s.s:8-20 | for every register state the routine returns the closed-form A-law value of r0 |
| G711Decoders.UlawToLinearRuns | src/g711s.s:81-90 | for every register state the routine returns the closed-form mu-law value of r0 |
| G711Decoders.SameLowByte | src/g711s.s:9-19 | the decoded value depends on the low 8 bits only |
| G711Laws.SameLowByteUlaw | src/g711s.s:82-89 | the decoded mu-law value depends on the low 8 bits only |
| Companding.HalvingIsScan | src/g711s.s:61-71 | the four-compare halving search finds the segment of the linear scan of 256, 512, ..., 32768 |
| Companding.FloorStep | src/g711s.s:12-17 | decision intervals are adjacent and every output value is the exact midpoint of its interval |
| Companding.CompressIsDecision | src/g711s.s:41-48 | a level is chosen exactly on its decision interval, and the last level above it |
| Companding.CompressMonotone | src/g711s.s:26-48 | a larger magnitude never gets a smaller level |
| Companding.CompressExpand | src/g711s.s:8-79 | every level is the one chosen for its own output value |
| Companding.ExpandError | src/g711s.s:8-90 | the quantization error is within half a step, and half a step is at most 1/32 of the magnitude (of 256 in the A-law's first segments) |
| G711Laws.AlawQuantizeIs | src/g711s.s:8-50 | encode then decode, in terms of the magnitude scale, on every 32-bit sample; -248 for -7..-1 and for -2^31 |
| G711Laws.AlawErrorExactly | src/g711s.s:8-50 | the A-law error bound holds exactly for -33303 <= x <= 33296 outside -7..-1 |
| G711Laws.UlawErrorExactly | src/g711s.s:52-90 | over all 32-bit samples the mu-law bound 32*abs(Q(x)-x) <= abs(x)+132 holds exactly up to magnitude 33164; Q is 32124 or -32124 above 32635 until the bias overflows |
| G711Laws.UlawOverflow | src/g711s.s:52-90 | what the mu-law pair returns once the bias passes 2^31 |
| G711Laws.AlawMonotoneExactly | src/g711s.s:8-50 | for all x <= y, Q(x) <= Q(y) exactly unless y is in -7..-1 and x in -247..-8, or x is -2^31 and y in -2^31+1..-264 |
| G711Laws.UlawMonotoneExactly | src/g711s.s:52-90 | for all 32-bit x <= y, Q(x) <= Q(y) exactly unless the magnitude further from zero overflows the bias and the other is above what is left of it; so Q is monotone wherever the bias does not overflow |
| G711Laws.AlawRoundTrip | src/g711s.s:8-50 | encoding the decoded value of any register value gives its low byte |
| G711Laws.UlawRoundTrip | src/g711s.s:52-90 | the same for the mu-law, except that 0x7F gives 0xFF |
| G711Laws.AlawFixedPoints | src/g711s.s:8-50 | Q is a projection on all 32-bit samples and its fixed points are exactly the decoder's outputs |
| G711Laws.UlawFixedPoints | src/g711s.s:52-90 | the same for the mu-law, negative zero and overflow included |
| G711Laws.UlawSignSymmetry | src/g711s.s:53-78 | negating a positive sample flips only the sign bit of the code and negates Q |
| G711Laws.AlawSignSymmetry | src/g711s.s:23-49 | for -2^31 < x <= -8 the code is that of -x-8 with the sign bit flipped, and Q is negated |
| G711Codec.Linear2Alaw | src/g711s.s:22-50 | the routine run on the processor returns the closed-form code, a byte |
| G711Codec.Alaw2Linear | src/g711s.s:8-20 | the routine run on the processor returns the closed-form value |
| G711Codec.Linear2Ulaw | src/g711s.s:52-79 | the routine run on the processor returns the closed-form code, a byte |
| G711Codec.Ulaw2Linear | src/g711s.s:81-90 | the routine run on the processor returns the closed-form value |
| G711Codec.RecodeAlaw | src/g711s.s:8-50 | decoder then encoder, on the processor, returns the low byte of any register value |
| G711Codec.RecodeUlaw | src/g711s.s:52-90 | decoder then encoder, on the processor, returns the low byte except for negative zero |
| G711Codec.RequantizeAlaw | src/g711s.s:8-50 | encoder then decoder, on the processor, is the quantizer the laws speak of |
| G711Codec.RequantizeUlaw | src/g711s.s:52-90 | encoder then decoder, on the processor, is the quantizer the laws speak of |
| AviPump.IterateKeeps | src/avi_save.c:336-403 | one turn of the inner loop keeps the loop-head invariant: held locks, SerialBook above SerialLock, check, counters, lawful history |
| AviPump.PumpKeeps | src/avi_save.c:335-404 | the loop-head invariant holds after any number of turns, and what is left over was not asked for |
| AviPump.FrameTotalInRange | src/avi_save.c:266-292 | the frame total is between 480 and 9000 for all requested lengths and reported rates |
| AviPump.RecordFileKeeps | src/avi_save.c:256-413 | one file keeps the invariant between files, through every exit |
| AviPump.EveryRunIsLawful | src/avi_save.c:220-425 | every run of the thread has a lawful history, holds exactly the current and lost locks, and counts the frames written |
| AviProgress.TurnExactly | src/avi_save.c:336-403 | the events of a turn, exactly, from the history and the reply: refused, empty, failed, too far behind, or written, with its lock, probe, unlock and close |
| AviProgress.WritesExactly | src/avi_save.c:336-392 | a reply is written exactly when it is a success, is wanted, and is not found more than 25 behind by a due probe; wanted is anything after a restart, otherwise data with a serial from the last frame's plus one, or from a later reply without data |
| AviProgress.NextReply | src/avi_save.c:342-385 | after a frame with serial s, the next reply is written exactly when it is a success with data and a serial above s, and no due probe finds it too far behind |
| AviProgress.PumpRuns | src/avi_save.c:335-404 | the inner loop gives every reply its turn, in order, until a turn ends the file |
| AviProgress.PumpEnds | src/avi_save.c:394-403 | a file that ends has reached its total; one that does not has had every reply its turn, and has room left or has written nothing |
| AviProgress.StreamIsRecorded | src/avi_save.c:335-404 | a stream in serial order that the thread keeps up with is written frame by frame, without a gap, until the file is full |
| AviProgress.FrameTotalIs | src/avi_save.c:266-292 | the frame total is the clamped minutes times 60 times the corrected rate |
| AviProgress.FileExactly | src/avi_save.c:257-412 | when a file is opened, discarded, filled and closed, and when the thread goes on |
| AviProgress.FileRecordsStream | src/avi_save.c:292-412 | a file given such a stream holds its frames from the first one, whatever its serial, and ends full exactly when there are enough |
| AviProgress.RecordRuns | src/avi_save.c:256-425 | the outer loop gives every setting its turn, with what is left of the replies, until a turn stops the thread |
| AviHistory.LawfulEverywhere | src/avi_save.c:335-412 | the laws hold of every event of a lawful history |
| AviHistory.RestartingHasCause | src/avi_save.c:330-392 | the stream is restarting exactly when a new file, a failed lock or a lag drop has had no written frame after it |
| AviHistory.LocksMinusUnlocks | src/avi_save.c:337-381 | locks taken minus locks released is the number held |
| AviHistory.LostCount | src/avi_save.c:333 | lost locks are one per file opened over a held frame, plus the strays |
| AviRecorder.Thread.Turn | src/avi_save.c:336-403 | the loop body in place is the turn of the specification |
| AviRecorder.Thread.WriteFrame | src/avi_save.c:371-385 | the new frame is written, the previous one released, and the book advanced to the next serial |
| AviRecorder.Thread.Fill | src/avi_save.c:335-404 | the inner loop in place is the specification's pump, which PumpRuns characterises |
| AviRecorder.Thread.File | src/avi_save.c:257-412 | one turn of the outer loop in place is the specification's |
| AviRecorder.Thread.Run | src/avi_save.c:256-425 | the whole thread in place is the specification's, and ends with the invariant |
| AviRecorder.FramesAreOrdered | src/avi_save.c:336-392 | a written frame is locked; it comes from an I-frame lock exactly when a new file, a failed lock or a lag drop has had no frame after it, and otherwise its serial is at least the one wanted, above the previous frame's |
| AviRecorder.ProbesExactly | src/avi_save.c:353-369 | the store is probed exactly when the fourth success since the last reset is an I-frame |
| AviRecorder.MissedProbe | src/avi_save.c:353-369 | when the fourth success is not an I-frame no probe is due until a failure or a new file |
| AviRecorder.LocksAreConserved | src/avi_save.c:330-404 | locks taken minus released are the current frame, one per forgotten frame and the strays; never more than two beside the lost ones; every unlock names a held frame |
| AviRecorder.FirstFullFile | src/avi_save.c:394-403 | the first full file holds exactly its total, between 480 and 9000 |
| AviRecorder.LaterFullFile | src/avi_save.c:379-403 | a full file that starts with the counter below its total ends at the total, otherwise it holds at most one frame |
| AviRecorder.FilesCloseOnce | src/avi_save.c:394-412 | no file is closed twice, and one is left open only after some file has ended full |
| AviControl.ServeKeeps | src/avi_save.c:572-600 | serving reads exactly the ready slots in order and keeps the table consistent |
| AviControl.StepKeeps | src/avi_save.c:536-600 | a round keeps slots and open descriptors in agreement, and reads exactly the open, ready clients, each once, unless accept fails or finds four clients |
| AviControl.FreeSlotExactly | src/avi_save.c:558-563 | a slot is free exactly when fewer than four clients are open |
| AviControl.StepSlots | src/avi_save.c:558-600 | a client keeps its slot until it is read and 3 bytes or fewer come or its descriptor is bad; an accepted connection, and nothing else, gets a free slot |
| AviControl.StepOpen | src/avi_save.c:547-600 | the open clients after a round, from the round: those before, with the one accepted, without those that ended |
| AviControl.OpenIsAcceptedNotEnded | src/avi_save.c:529-601 | in every run the open clients are exactly those accepted in some round and not ended since |
| AviControl.AtMostFour | src/avi_save.c:494-498 | at most four clients are open |
| AviControl.RunsKeepTable | src/avi_save.c:529-601 | any run of rounds keeps the client slots distinct, exactly the open descriptors, and at most four |
| AviControl.EveryRunKeepsTable | src/avi_save.c:494-601 | so they are in every run of a server that has just started listening |
| AviControl.Server.MaxDescriptor | src/avi_save.c:537-545 | the select bound is one of the watched descriptors and none is above it |
| AviControl.Server.Turn | src/avi_save.c:547-600 | a round in place is the specification's, which StepSlots and StepKeeps characterise |
| AviControl.Server.Serve | src/avi_save.c:572-600 | the read loop in place is the specification's |
| AviControl.Server.Run | src/avi_save.c:536-601 | the server loop in place is the specification's, and in each round the maximum given to select is one of the descriptors watched at that moment, with none above it |
| P2pRegistry.CounterIsReflection | src/p2p.c:233-250 | after any trace from any start the counter is the larger of start plus net and the largest suffix net |
| P2pRegistry.Accounting | src/p2p.c:233-250 | counter minus enabled clients changes by exactly the redundant registers, less the effective redundant unregisters, plus absorbed unregisters |
| P2pRegistry.CounterCovers | src/p2p.c:233-250 | with no unregister of a disabled client the counter covers the enabled clients, with equality if no register hits an enabled one |
| P2pRegistry.UnregisterCoversExactly | src/p2p.c:242-250 | the exact condition for one unregister to keep the counter covering |
| P2pRegistry.StarvedExactly | src/p2p.c:768-770 | an enabled client is starved exactly when no suffix of the trace has a positive net and some client's last call is a register |
| P2pRegistry.StarvationHappens | src/p2p.c:233-250 | a two-call trace that starves a client |
| P2pRegistry.RecipientsExactly | src/p2p.c:772-786 | recipients are exactly the clients with a channel and video enabled, once each, in SID order |
| P2pRegistry.BroadcastExactly | src/p2p.c:759-821 | exactly the recipients whose result is closed by remote, timed out or invalid SID are disabled, and the counter falls by their number, not below zero; nothing changes at a zero counter |
| P2pRegistry.HarmlessBroadcast | src/p2p.c:790-818 | results that are delivered, queue full or any other error drop no one |
| P2pRegistry.DropsHitEnabled | src/p2p.c:798-816 | every unregister call of a broadcast hits a client that is still enabled |
| P2pRegistry.BroadcastCovers | src/p2p.c:759-821 | while the counter covers the enabled clients, a broadcast changes neither that nor the difference |
| P2pRegistry.DropAndLeave | src/p2p.c:693 | a client dropped by a broadcast and unregistered again by its thread leaves the survivors one count short, and starves a single survivor |
| P2pRegistry.ClientTable.RegisterClient | src/p2p.c:233-240 | the call in place is the register step |
| P2pRegistry.ClientTable.UnregisterClient | src/p2p.c:242-250 | the call in place is the unregister step |
| P2pRegistry.ClientTable.SendFrame | src/p2p.c:759-821 | the broadcast loop in place sends to the recipients in order and leaves the specification's table |
| P2pSessions.EverySchedule | src/p2p.c:648-702 | in every schedule the online count is exact, open sessions have different SIDs, and every enabled client belongs to a serving session on its channel |
| P2pSessions.OnlineCount | src/p2p.c:1023-1049 | gOnlineNum is live threads plus counted failed creations less one inside the window; never below -1; below the live threads exactly in the window with no failed creation |
| P2pSessions.FramesGoToServingSessions | src/p2p.c:772-786 | a broadcast reaches only sessions in their request loop, on the channel they opened |
| P2pSessions.CallsMakeRegistry | src/p2p.c:410-444 | the table after a schedule is the one its calls make in order, so the trace laws apply; what the calls of a step do is StartDoes, StopDoes, EndDoes and OthersDo |
| P2pSessions.StarvedSchedules | src/p2p.c:768-770 | when a schedule leaves an enabled client starved, from its calls alone |
| P2pSessions.LeavingCoversExactly | src/p2p.c:693 | the exact condition for a session's end to keep the counter covering |
| P2pSessions.StepCovers | src/p2p.c:410-444 | a step keeps the counter covering, unless a session stops video or ends while its client is disabled |
| P2pSessions.TidySchedules | src/p2p.c:648-702 | in every schedule whose sessions find their client enabled when they stop video or end, nobody is starved; the counter is exact if they also find it disabled when they start |
| P2pEffects.StartDoes | src/p2p.c:410-425 | START enables the session's client on the channel the session opened and adds one to the counter |
| P2pEffects.StopDoes | src/p2p.c:429-443 | STOP disables the session's client and takes one off the counter, not below zero, whatever the client was |
| P2pEffects.EndDoes | src/p2p.c:692-693 | the end of a session does the same |
| P2pEffects.OthersDo | src/p2p.c:648-702 | no other step touches the client table, and a broadcast touches nothing else |
| P2pEffects.ListenDoes | src/p2p.c:1023-1040 | what accepting a connection does, by the result of creating its thread |
| P2pEffects.OnlineChanges | src/p2p.c:701-1040 | gOnlineNum changes only by the acceptor's increment and a thread's exit |
| P2pEffects.PhaseAfter | src/p2p.c:663-701 | a session keeps its SID and moves through its phases in order; a failed start goes past the request loop |
| P2pEffects.EnabledIsLastSwitch | src/p2p.c:410-444 | in every schedule a client is enabled exactly when a START turned it on and no STOP, session end or terminal send has turned it off since |
| P2pEffects.ServingHasStarted | src/p2p.c:663-690 | in every schedule a thread is in its request loop exactly when its start succeeded, on that channel, and the loop has not ended since |
| P2pStarvation.QuietDisconnectStarves | src/p2p.c:678-701 | in the schedule QUIET_DISCONNECT, a session that never started video disconnects and the streaming one is starved |
| P2pStarvation.DroppedDisconnectStarves | src/p2p.c:798-803 | in the schedule DROPPED_DISCONNECT, both sessions stream, a broadcast drops one, its thread ends, and the other is starved |

## Left out

- `G711_alaw2ulaw` and `G711_ulaw2alaw`: they read tables at absolute addresses whose contents are not in the repository.
- Instruction encodings, memory, and registers above r3: the four routines use none of them but the return address.
- Serial numbers and frame counters are unbounded integers: `SerialBook++` at 2^31-1 and the wrap of `rec_frames` and `p2p_send_status` are not modelled.
- A frame written after a probe is attributed to `SerialBook`: the probe reuses the reply record, and its data pointer, size and flags are taken to survive, which depends on a store that is not part of this model.
- The frame store itself (`inc/mem_mng.h`, `inc/cache_mng.h`, `inc/gop_lock.h`): declarations only.
- AVI header filling, free-space search, schedule and file names, `GetVideoInfo`: their outcomes are inputs of the model.
- Several recording threads at once: the laws are per thread; the stream status a new thread inherits is arbitrary.
- `processMsg_avi` beyond the time-length clamp, and the contents of messages and answers.
- A listening descriptor or accepted descriptor equal to 0: excluded by the assumptions on `accept` and on the server socket.
- Word-level races on `p2p_send_status`, `gOnlineNum` and `g_rec_*`: each access, and each broadcast, is one atomic step.
- The acceptor and session threads are a state machine over steps, not a class: what runs in place on `gOnlineNum` is a single increment or decrement.
- P2P audio, speaker, playback, PTZ and event-list requests, login, and error printing: case tables or stubs.
- `src/sd_file.c`, `src/init_system.c`, `src/av_globle.c`, `src/main.c`: shell commands, configuration and startup.
