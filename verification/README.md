# BG96 modem driver: a verified model

The Anjay Lite bare-metal client talks to a BG96 modem over one UART. This project models
that driver in Dafny, from the circular buffers that the interrupts share with the main
loop up to the polled UDP socket, and proves what the layers promise together: that
datagrams are framed correctly however the bytes are chunked, that no byte is lost or
reordered between interrupt and main loop, and that a finished send has put exactly the
right bytes on the wire.

## How it is built

Each layer exists twice. A **value layer** says what an operation does as a function on
sequences and records. A **driver layer** holds the code's own form: classes whose fields the
methods update, with the loops of the source, each method proved equal to the function
of the value layer. Theorems over whole runs are lemmas about the value layer.

| file | content |
|---|---|
| `Bytes` | bytes, sizes, decimal numbers |
| `CircBuf` | the ring of `circ_buf.h` as a class refining a byte sequence |
| `Modular`, `Sequences` | facts about remainders and sequences |
| `Interleaving` | the ring at the grain of single index loads and stores, and its races |
| `Lines` | the tokenizer |
| `Urc` | what the URC handler decides, datagram queue, conforming streams |
| `SendWindow` | what a send that waits for `SEND OK` does to the datagrams |
| `Reception` | what becomes of the datagrams of a stream on every run |
| `ModemTx`, `ModemRx`, `DatagramQueue`, `Modem` | transmit chain, receive side, queue store, modem driver |
| `Dialogue` | responses, commands and the resumable AT dialogues as functions |
| `Polling`, `Bringup` | lenient polling for a command's answer, against the clock |
| `Socket` | the socket context as a state machine over interrupts and calls |
| `SocketHistory`, `SocketConnect`, `SocketPeer`, `SocketRuns`, `SocketSend`, `SocketReceive`, `SocketLoss`, `SocketTeardown` | theorems over its runs |
| `SocketAnswers` | what every call answers, over the bytes received |
| `Net`, `SocketCalls` | the socket context as a class, and why its calls are runs of the machine |

**Interrupts.** `ModemRx` holds the finite stream the modem will send, chosen arbitrarily; every
access of the main loop to the RX ring first lets any number of RX interrupts run. `ModemTx`
does the same with completion interrupts. So a call can be interrupted between any two of its
accesses. The contracts say that the call nevertheless acts as its function applied at one
moment within it (the ghost results `seen` and `mid`), and `SocketCalls.CallIsRun` turns that
into a run of the machine.

**Findings.** Some properties one would expect hold only under a condition; each is stated
with the exact condition and, where that helps, a family of inputs that break it.

- A shutdown refused during a connect has already flushed the received bytes, and an RX overflow
  pushes some out. A connect that then succeeds was answered by `OK` and, as the very next line,
  `+QIOPEN: 0,0` exactly if all bytes lost were newlines (`SocketConnect.ConnectExact`); a run from
  the start of the driver in which they were not is `SocketConnect.HistoryCanFail`.
- A close before the connect has succeeded returns 0 and leaves the connect pending. The next
  connect, to whatever peer, resumes it and reports success for the first one: only the command of
  the first poll is ever sent (`SocketPeer.ConnectSent`, `SocketPeer.WrongPeer`).
- A send that waits for `SEND OK` takes any line for the answer. If that line announces a datagram,
  the send fails and the datagram's bytes are read as lines; datagrams stay as they are for all bytes
  that may follow exactly if it announces none (`SendWindow.WindowExact`). A run that loses a
  datagram this way is `SocketLoss.SendCanLose`. "That may follow" matters:
  `SendWindow.AlignmentCanReturn` has a payload, itself made of announcing lines, after which the code
  finds the same datagrams all the same.
- The deadline of a bringup command wraps at 2^32 while the comparison does not: an attempt whose
  deadline wraps is over before its first poll (`Polling.WrappedDeadline`).
- A line of 1755 bytes or more fills the RX ring and stops the handler (`Urc.FullRing`).
- A command that does not fit the TX ring leaves its earlier pieces there, and the next command
  is sent behind them (`Transmit.RejectedCommandLeaves`, `SocketRuns.ResidueExact`).
- `circ_buf_flush`, `circ_buf_avail` and `circ_buf_pop` are not atomic; the exact effect of an
  interrupt between their accesses is in `Interleaving`. Elsewhere they are single steps.

## Model

| member | source | states |
|---|---|---|
| CircularBuffer.CircBuf.Avail | src/modem/circ_buf.h:26-30 | the number of bytes held, for every wrap position |
| CircularBuffer.CircBuf.Free | src/modem/circ_buf.h:32-34 | bytes held plus free plus one is the length |
| CircularBuffer.CircBuf.Push | src/modem/circ_buf.h:36-39 | appends one byte to the content |
| CircularBuffer.CircBuf.Pop | src/modem/circ_buf.h:41-45 | removes and returns the first byte |
| CircularBuffer.CircBuf.Seek | src/modem/circ_buf.h:47-50 | reads the byte at an offset without consuming |
| CircularBuffer.CircBuf.AdvanceN | src/modem/circ_buf.h:52-58 | drops n bytes |
| CircularBuffer.CircBuf.Flush | src/modem/circ_buf.h:60-63 | empties the buffer |
| CircularBuffer.CircBuf.Append | src/modem/circ_buf.h:65-74 | all or nothing, and exactly when it fits |
| CircularBuffer.WindowAt | src/modem/circ_buf.h:47-50 | the byte at an offset of the window is the stored byte at begin plus the offset, wrapped |
| CircularBuffer.WindowPush | src/modem/circ_buf.h:36-39 | with a free slot, storing at end and moving it appends, at every wrap position |
| CircularBuffer.WindowDrop | src/modem/circ_buf.h:52-54 | moving begin by n drops n bytes, at every wrap position |
| Interleaving.InterruptSafe | src/modem/circ_buf.h:16-54 | with a push interrupt between any two loads and stores and a free slot at each push, the ring holds the pushed bytes not yet taken and every byte read is the pushed one |
| Interleaving.OverflowSlides | src/modem/modem_rx.c:34-45 | without a consumer, after any burst the ring holds the last bytes of old content and burst, one less than its length |
| Interleaving.SplitFlushExact | src/modem/circ_buf.h:60-63 | a burst between the two stores of a flush is dropped with the rest exactly if it overruns the ring from index 0 by nothing or by whole turns |
| Interleaving.TornAvailExact | src/modem/circ_buf.h:26-30 | reading end twice gives the bytes held exactly if the pushes in between did not wrap end after the comparison; otherwise the result is near 2^32 |
| Interleaving.SplitPopExact | src/modem/circ_buf.h:41-45 | a pop interrupted by an overflowing burst keeps the sliding window exactly if the overrun is one byte, up to whole turns |
| Lines.TokenizerExact | src/modem/modem_rx.c:59-84 | scanning and advancing again and again yields exactly the maximal non-empty runs without CR or LF that a newline ends, in order |
| Lines.SpansStable | src/modem/modem_rx.c:69-84 | bytes appended during or after the scan never revise a line already found |
| Lines.LineIsExact | src/modem/modem_rx.c:69-84 | the next line is a given text exactly if newlines, then that text without any, then a newline follow |
| RxDriver.ModemRx.RxCpltCallback | src/modem/modem_rx.c:34-45 | in the release build the ring keeps the last 1755 bytes |
| RxDriver.ModemRx.PopNewlines | src/modem/modem_rx.c:59-67 | consumes exactly the leading newlines while bytes keep arriving, and terminates on every finite stream |
| RxDriver.ModemRx.SeekLineLength | src/modem/modem_rx.c:69-84 | finds the first complete line of what has arrived, or reports that there is none, consuming only newlines |
| ModemDriver.LineStartsWith | src/modem/modem.c:46-55 | decides the prefix relation on the line, with no read past the terminator of the string |
| ModemDriver.LineEquals | src/modem/modem.c:57-65 | decides equality with the line, with no read past the terminator of the string |
| Urc.KindExact | src/modem/modem.c:111-133 | a line announces n bytes exactly if it is `+QIURC: "recv",0,` followed by one to four digits of value n; it is skipped without error exactly if it does not begin like that |
| Bytes.DigitsAreAscii | src/modem/modem.c:118-133 | digits have the codes 48 to 57, read and written |
| Bytes.DecimalText | src/modem/modem.c:291-313 | a number is written with its most significant digit first |
| Urc.DecisionStable | src/modem/modem.c:99-174 | once the handler skips, rejects or takes something, bytes arriving later would not have changed that |
| Urc.HandlerSplits | src/modem/modem.c:99-174 | for every continuation of the stream, one handler call splits its datagrams into the one found and those of the rest |
| Urc.FramesStable | src/modem/modem.c:99-174 | the datagrams of a prefix are the first datagrams of the stream |
| Urc.OtherLineDecided | src/modem/modem.c:113-133 | any other line is removed up to its terminator, and is an error exactly if it starts with the header |
| Urc.ConformingFrames | src/modem/modem.c:99-174 | a stream of announced datagrams and other lines holds exactly these datagrams, whatever their bytes |
| Urc.PartialFrames | src/modem/modem.c:99-174 | while any part of a conforming stream has arrived, its datagrams are the first announced ones, those of all items that have arrived whole included |
| Urc.DropRule | src/modem/modem.c:137-174 | a complete datagram is lost exactly if it has 1500 bytes, exceeds the free space or 15 are queued; kept or lost, exactly its line, two bytes and payload are consumed |
| Urc.ConsumesExact | src/modem/modem.c:99-140 | at the start of an item the handler consumes something exactly if a newline is in front, or the announced datagram is complete, or the other line and one byte of its terminator are |
| Urc.FullRing | src/modem/modem_constants.h:14-19 | with a full RX ring that starts with an item and no newline, it consumes exactly for datagrams of at most 1732 bytes and other lines of at most 1754 |
| Urc.NoDeadlock | src/modem/modem_constants.h:14-19 | with 1523 bytes or more from an item boundary of a conforming stream on, a handler call consumes some exactly unless they all belong to one line that is not yet complete and announces nothing |
| Urc.HandleKeepsQueueOk | src/modem/modem.c:146-171 | at most 15 datagrams, together at most 1500 bytes, each shorter than 1500 |
| ModemDriver.Inspect | src/modem/modem.c:99-140 | the deciding part under interrupts equals the decision on what had arrived at one moment |
| ModemDriver.Modem.ConsumeFrame | src/modem/modem.c:142-174 | consumes a complete frame and queues it under the drop rule |
| ModemDriver.Modem.UrcBufferHandler | src/modem/modem.c:99-174 | return code, position and queue are those of the handler run at one moment of the call |
| ModemDriver.Modem.SocketTryRecv | src/modem/modem.c:176-198 | the oldest datagram leaves the queue and is copied if it fits, or the handler runs once |
| DatagramQueue.LengthTaken | src/modem/modem.c:181-184 | after the start index moves, the live slots hold the lengths of the remaining datagrams |
| DatagramQueue.LengthAdded | src/modem/modem.c:169-171 | writing at the end index adds the length behind the live ones |
| DatagramQueue.Store.Commit | src/modem/modem.c:165-171 | byte ring, length ring and indices hold the queue with the new datagram at the end |
| DatagramQueue.Store.Take | src/modem/modem.c:181-197 | byte ring, length ring and indices hold the queue without its first datagram, which is returned whole or not at all |
| SendWindow.ConfirmKeepsFrames | src/modem/modem.c:345-353 | a line taken for the confirmation that announces no datagram leaves the datagrams of every continuation as they are |
| SendWindow.ConfirmExact | src/modem/modem.c:207-228 | while no announced datagram is complete, the datagrams are the same for all continuations exactly if the line announces none |
| SendWindow.WindowExact | src/modem/modem.c:345-353 | a poll that waits for SEND OK leaves the datagrams as they are, for all bytes that may follow the line, exactly if that announces none; otherwise the send fails; the queue is untouched |
| SendWindow.AlignmentCanReturn | src/modem/modem.c:345-353 | a line that announces a datagram can be lost without a difference if the payload is made of such lines |
| SendWindow.SelfAnnouncingLine | src/modem/modem.c:111-140 | such a line exists: the header line that announces 25 bytes |
| Reception.Conservation | src/modem/modem.c:99-356 | for every byte stream and every interleaving of arrivals, overflows, receive polls, sends, answers and flushes, the frames met since the last break (a prompt, an announcing line taken for an answer, a byte other than a newline lost) then those left are those of the stream from there, and of all frames met the kept ones are those taken then those queued |
| Reception.FramingFromBreak | src/modem/modem.c:99-356 | while any part of a stream that is conforming from the last break on has arrived, the frames met since and those unread are the first announced ones, those of all whole items included |
| Reception.ReceivedExactly | src/modem/modem.c:99-198 | with receive polls only, well-formed stream or not, datagrams taken, queued and still unread are exactly the ones shorter than 1500 bytes, in order |
| Reception.EndToEndFraming | src/modem/modem.c:99-198 | while any part of a conforming stream has arrived, the datagrams taken, queued and unread are the first short ones announced, byte-exact, and none of an item that has arrived whole is missing |
| Reception.ChunkingIndependence | src/modem/modem.c:99-198 | schedules that bring the same bytes and end quiet deliver the same datagrams |
| Reception.PollingQuiesces | src/modem/modem.c:176-198 | two polls per unread byte and one per queued datagram end quiet |
| Transmit.ChainLength | src/modem/modem_tx.c:29-46 | a start with n queued bytes is finished by exactly n completions, and what is on the wire after each is known |
| Transmit.CompletionsKeepAll | src/modem/modem_tx.c:38-46 | completions neither add nor drop nor reorder bytes |
| Transmit.CommandAccepted | src/modem/modem.c:235-268 | a command in pieces is accepted exactly if nothing is being sent and all of it fits; then it follows everything accepted before |
| Transmit.RejectedCommandLeaves | src/modem/modem.c:258-262 | a command that does not fit leaves exactly the pieces before the failing one |
| TransmitRuns.TxConservation | src/modem/modem_tx.c:29-71 | in every run, bytes handed over then bytes queued are the accepted ones, and the flag is set exactly while one byte is in flight |
| TransmitRuns.TxConservedFromIdle | src/modem/modem_tx.c:22-27 | the same for every run from the idle transmitter |
| TxDriver.ModemTx.TxCpltCallback | src/modem/modem_tx.c:38-46 | sends the next byte or ends the chain |
| TxDriver.ModemTx.AppendBytes | src/modem/modem_tx.c:52-57 | rejects while sending, otherwise all or nothing |
| TxDriver.ModemTx.StartChain | src/modem/modem_tx.c:59-71 | hands over the first byte of an idle non-empty transmitter |
| TxDriver.ModemTx.SendAll | src/modem/modem.c:235-244 | the appends and start of a command under completion interrupts |
| Dialogue.LookupIsFirst | src/modem/modem.c:214-222 | the first table entry equal to the line gives the code |
| ModemDriver.MatchResponses | src/modem/modem.c:207-223 | the first complete line of what had arrived at one moment decides and is consumed whole |
| ModemDriver.Modem.SocketOpenInit | src/modem/modem.c:250-268 | flushes, then writes and starts the open command |
| ModemDriver.Modem.SocketOpenContinue | src/modem/modem.c:270-289 | the two-step answer dialogue |
| ModemDriver.Modem.SocketSendInit | src/modem/modem.c:291-313 | writes and starts the send command |
| ModemDriver.Modem.SocketSendContinue | src/modem/modem.c:315-356 | prompt, payload and confirmation, handling URCs while no prompt has come |
| Dialogue.AwaitIsHandle | src/modem/modem.c:319-330 | while no prompt has come, a send poll consumes and queues exactly as the URC handler does |
| Dialogue.CloseInitExact | src/modem/modem.c:362-368 | a close begins exactly if nothing is being sent and its 14 bytes fit; the received bytes are flushed either way |
| ModemDriver.Modem.SocketCloseInit | src/modem/modem.c:362-368 | flushes, then writes and starts the close command |
| Bringup.BringupCommandEx | src/modem/modem.c:374-407 | with at least one attempt, success exactly if among the lines consumed after the last flush the first decisive one has code 0, every earlier one being skipped whole; at most the given attempts are sent and nothing else; every tick the clock was asked for is one of an attempt that ran as `Polling.Ran` says, all but the last of which timed out; terminates while the clock advances |
| Bringup.PollUntil | src/modem/modem.c:391-403 | each tick below the deadline is followed by exactly one match on no less than what had arrived by then; the loop ends with a decisive line or a tick at or past the deadline |
| Bringup.FirstAnswerEnds | src/modem/modem.c:374-407 | an answer in time to the first attempt ends the command after one attempt |
| Polling.AnswerInTime | src/modem/modem.c:391-403 | if line j after the flush is the first decisive one and has arrived whole at tick n, and tick n + j is still below the deadline, the attempt ends with that line; so an OK that stands first at the first poll is accepted |
| Polling.WrappedDeadline | src/modem/modem.c:391-392 | a deadline that wraps past 2^32 is over at once: no line is matched |
| Polling.AcceptedExact | src/modem/modem.c:385-399 | of the four endings of an attempt, acceptance is the one in which the first decisive line consumed has code 0 |
| Polling.MatchSkips | src/modem/modem.c:230-233 | a lenient match either skips one more line or meets the first decisive one |
| SocketHistory.UnionInvariant | src/compat/net.c:28-38 | on every reachable state the union member in use was the last initialised and its step is 0 or 1; a send is in progress only when connected |
| SocketRuns.StartIsSafe | src/compat/net.c:51 | the zero-initialised driver meets what the theorems over runs start from |
| SocketHistory.ConnectHistory | src/compat/net.c:69-94 | on every run whose pending connects lose nothing but newlines, a connected socket had OK and as the very next line +QIOPEN: 0,0 after the flush of the last connect that succeeded, and no shutdown completed since |
| SocketConnect.LossExact | src/compat/net.c:69-94 | event by event, what a pending connect has consumed stays the answer so far exactly if the event loses nothing but newlines |
| SocketConnect.ConnectExact | src/modem/modem.c:270-289 | a connect polled to success was answered by OK and as the very next line +QIOPEN: 0,0 exactly if every byte lost since its flush, to an overflow or a refused close, was a newline |
| SocketConnect.HistoryCanFail | src/compat/net.c:180-187 | from the start of the driver, for every host and port that fit and all other bytes the ring can hold, a run that connects with these bytes between OK and +QIOPEN: 0,0 |
| SocketPeer.ConnectSent | src/compat/net.c:69-94 | a connect that ends with 0 has handed over exactly the open command with the host and port of its first poll, whatever the later polls named and whatever else was called |
| SocketPeer.WrongPeer | src/compat/net.c:192-202 | from the start of the driver, a run in which a close returns 0 while a connect is pending and all later polls name another peer, the last returns 0, and only the command for the first peer was sent |
| SocketRuns.QueueStaysGenuine | src/compat/net.c:137-162 | on every run whatever is queued came whole from a frame of the stream |
| SocketRuns.RecvNeverTruncates | src/compat/net.c:137-162 | after every run, 0, EMSGSIZE and error exactly for a datagram shorter than, equal to and longer than the buffer; exactly that datagram leaves; data returned with 0 is a whole frame below 1500 bytes |
| SocketReceive.NetRecvExactly | src/compat/net.c:137-162 | for every byte stream and every interleaving of arrivals and receive polls, what the caller got with 0, what is queued and what is unread are exactly the datagrams shorter than 1500 bytes, whole and in order |
| SocketReceive.NetRecvFraming | src/compat/net.c:137-162 | while any part of a conforming stream has arrived, the datagrams the caller got, those queued and those unread are the first short ones announced, and none of an item that has arrived whole is missing |
| SocketReceive.RunConserves | src/compat/net.c:51-295 | the same on every run of the socket from an empty queue, whatever is called: frames met since the last break then those unread are those of the stream, and of all frames met the kept ones are those that left the queue then those in it |
| SocketReceive.RunFraming | src/compat/net.c:51-295 | on every run, the frames met since the last break and those unread are the first ones announced by a stream that is conforming from there, those of all whole items included |
| SocketReceive.CallerGetsAll | src/compat/net.c:137-162 | on every run with receive buffers of 1500 bytes or more, the caller gets with 0 exactly the datagrams that leave the queue |
| SocketRuns.IdleMeansEmpty | src/modem/modem_tx.c:52-71 | an idle transmitter is empty on every run whose connect commands fit the ring |
| SocketRuns.ResidueExact | src/modem/modem.c:256-262 | a connect from an empty idle transmitter leaves pieces behind exactly if host and port are too long together |
| SocketRuns.CommandsBegun | src/modem/modem.c:250-268 | a connect or shutdown begins exactly if nothing is being sent and its command fits; it flushes either way, and then exactly its AT text is handed over |
| SocketSend.PayloadAfterPrompt | src/modem/modem.c:315-344 | as long as a send is in progress, whatever else is called, no payload byte is handed over before a prompt was consumed |
| SocketSend.SendCorrect | src/compat/net.c:96-135 | a send polled to 0 with one buffer, anything else being called in between, has handed over exactly command, buffer and Ctrl-Z, consumed a prompt and then a line SEND OK, and returns the buffer's length |
| SocketSend.SendReachesWire | src/modem/modem_tx.c:38-46 | the remaining completions put exactly these bytes on the wire and end idle |
| SocketSend.SendCanSucceed | src/compat/net.c:112-135 | for every buffer that fits there is a run in which the send returns 0 |
| SocketLoss.SendCanLose | src/modem/modem.c:345-353 | for every buffer and every short one-line payload, a run in which a send fails on the line that announces the payload: everything is consumed, nothing is queued or has left the queue, though the stream holds the datagram |
| SocketTeardown.CleanupExact | src/compat/net.c:226-237 | a cleanup returns EINPROGRESS with a shutdown pending or frees the slot; exactly when it does which, and when it frees it with 0 or with an error, over the received bytes |
| SocketTeardown.TeardownCompletes | src/compat/net.c:166-237 | with any interrupts, overflows included, and connect, send and receive calls in between, a pending cleanup frees the slot at the first cleanup poll that sees a complete line, not before, and the next create starts closed with no operation |
| SocketAnswers.CreateAnswer | src/compat/net.c:53-67 | error on a used slot, ENOTSUP for IPv6 only, both without a change; otherwise 0 and a closed socket with no operation |
| SocketAnswers.ConnectBegins | src/compat/net.c:69-94 | EINPROGRESS exactly if no operation is pending, nothing is being sent and the command fits; an error otherwise, without a change if another operation is pending |
| SocketAnswers.ConnectAnswer | src/compat/net.c:69-94 | 0 exactly for the line +QIOPEN: 0,0 in the second step, EINPROGRESS exactly without a line or for OK in the first, an error and no operation for any other line |
| SocketAnswers.SendRefused | src/compat/net.c:96-113 | error unless connected, EMSGSIZE exactly above 1460 bytes, error while another operation is pending, each without a change; EINPROGRESS always leaves a send pending |
| SocketAnswers.SendBegins | src/compat/net.c:112-118 | a send of any length up to 1460 begins exactly if nothing is being sent and its command fits, and errs otherwise |
| SocketAnswers.PromptAnswer | src/modem/modem.c:315-344 | before the prompt a poll errs exactly if the handler does, at the prompt exactly if payload and Ctrl-Z do not fit; an error ends the operation |
| SocketAnswers.ConfirmationAnswer | src/modem/modem.c:345-353 | 0 exactly for SEND OK, EINPROGRESS exactly without a line or for a single space, otherwise an error with no operation; the line is consumed |
| SocketAnswers.ReceiveAnswer | src/compat/net.c:137-162 | error when closed, EAGAIN while an operation is pending; with nothing queued error exactly for a bad recv line or a datagram of 1500 bytes or more, otherwise EAGAIN; with something queued by its length |
| SocketAnswers.ShutdownAnswer | src/compat/net.c:166-190 | a pending shutdown goes on exactly without a line, ends with 0 exactly for OK and with an error for any other line, shut down in both cases; another begins exactly if its command fits |
| SocketAnswers.CloseAnswers | src/compat/net.c:192-202 | closed: 0 without a change; shut down: 0 and closed; connected: as a shutdown |
| SocketAnswers.ConnectedCloseAnswer | src/compat/net.c:192-202 | the codes of a close of a connected socket over the received bytes |
| NetDriver.Net.CreateCtx | src/compat/net.c:53-67 | acts as the create of the machine |
| NetDriver.Net.ConnectCtx | src/compat/net.c:69-94 | acts as the connect of the machine at one moment of the call |
| NetDriver.Net.SendCtx | src/compat/net.c:96-135 | acts as the send of the machine at one moment of the call |
| NetDriver.Net.RecvCtx | src/compat/net.c:137-162 | acts as the receive of the machine at one moment of the call |
| NetDriver.Net.ShutdownCtx | src/compat/net.c:166-190 | acts as the shutdown of the machine at one moment of the call |
| NetDriver.Net.CloseCtx | src/compat/net.c:192-202 | acts as the close of the machine at one moment of the call |
| NetDriver.Net.CleanupCtx | src/compat/net.c:226-237 | acts as the cleanup of the machine at one moment of the call |
| SocketCalls.CallIsRun | src/compat/net.c:244-295 | every call, interrupted anywhere, is a run of interrupts, the call as one step, and interrupts |

## Left out

- RxDriver.ModemRx.Preempt: brings only bytes that find a free slot, so a ring that overflows in the middle of a call is not covered by the driver contracts. Overflow between calls is the event `RxOverrun` of `Socket`, and what overflow does within a pop or a flush is in `Interleaving`.
- RxDriver.ModemRx.RxCpltCallback: is the release build; with assertions on, an overflow stops the program.
- RxDriver.ModemRx.Flush: is one step, though the code stores begin and end one after the other.
- Bytes.ParseDecimal: stands for a library routine that is not part of this model's sources; it fails on an empty text, on a non-digit and beyond 32 bits.
- Bringup.Clock.GetTick: does not wrap. The deadline computed from it does, as in the code.
- TxDriver.ModemTx.TxChar: takes the byte's value at the call; the HAL reads it later through a pointer to a local variable of a function that has returned.
- NetDriver.Net.CleanupCtx: does not clear the caller's pointer; a call without a context is not enabled in `Socket`.
- Reception.EndToEndFraming: is about receive polls only; with anything else in between, `Reception.FramingFromBreak` counts frames from the last break on.
- The HAL, GPIO, delays and random numbers: hardware effects whose results the code ignores.
- Logging, including the text that warn_and_advance builds: only its consumption of RX bytes is kept.
- modem_bringup, main, the configuration headers: fixed sequences and constants.
- net_get_inner_mtu, net_get_state, net_reuse_last_port, net_queue_mode_rx_off: constants and a field read.
- The temperature object, time, random numbers and timing for mbedTLS: separate from the modem stack and easy.
- The anj_udp wrappers: forward to the functions modelled here.
- Liveness against a silent modem: the code has no timeouts for open, send and close.
