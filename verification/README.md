# Verified models of DTN 2.7.0 and oasys 1.4.0

A Dafny model of the parts of the DTN reference implementation and its oasys
library whose correctness is not obvious from reading one function, with proofs
of what they promise. `dafny verify dfyconfig.toml` checks all of it.

## The parts

- **Option scanning** (`PermuteArgs`, `GetoptSpec`, `GetoptLong`, `GetoptLines`,
  `GetoptRoundTrip`). `permute_args` rotates two blocks in place along
  gcd-many cycles; `getopt_internal` is a re-entrant scanner over statics that
  permutes its vector as it goes. The class is proved against a reference
  scanner that permutes nothing, and that scanner against command lines written
  out from a list of options and operands, faulty ones included, which every
  vector is.
- **Client and daemon IPC** (`DtnWire`, `DtnClient`, `DtnTraffic`, `DtnSession`).
  Frames and socket loops over scripted system calls; the library's calls as refinements of
  a client machine; the session as two FIFO channels with client and server
  taking steps in any order.
- **Registrations** (`Registrations`, `RegistrationEffects`, `RegistrationServer`).
  Any number of API clients, expiration timers and the daemon's event queue.
- **Bounded printf** (`Digits`, `PrintfSpec`, `BoundedPrintf`, `PrintfLaws`,
  `PrintfFormats`, `PrintfLayouts`, `PrintfStars`).
  Digit loops with locale grouping, directives, fields, and the engine whose
  every output step truncates on its own. The standard meant is
  ISO/IEC 9899:1999, sections 7.19.6.1 and 7.19.6.12.
- **Simulated link** (`SimLink`, `SimTiming`). FIFO event queues under three one-shot timers.
- **Streams** (`IoVec`, `BufferedInput`). Results that do not depend on how
  transfers are split.
- **Serializers** (`Records`, `KeySerialize`, `KeyRoom`, `KeyActions`, `Marshal`,
  `MarshalActions`). Schemas with nested objects; keys, the room they take, and
  flat records.
- **Allocation table** (`MemTable`). Linear probing against a plain map.

`Arithmetic` and `Common` hold shared facts and vocabulary. Where the source
updates something step by step the model has a class or a method with loops, and
its contract ties it to functions on values; the laws are proved about those.
I/O, clocks and other threads are parameters: scripts of system-call outcomes,
steps in any order, delays chosen at each step.

## Where the code does not do what it is meant to

Each is modelled as the code has it. The members named give the exact condition,
and an input or a run where the condition does not show one.

- A cancelled poll that had timed out leaves a reply unread, because
  `dtnipc_send_recv` never returns the code `dtn_cancel_poll` asks about
  (`LockstepExactly`, `TimedOutPollLeavesReply` and the two lemmas after it).
- `dtn_begin_poll` sets `in_poll` before packing, so a packing failure leaves a
  poll expected that was never sent; any half-packed argument stays in front of
  the next request (`LockstepExactly`).
- `dtnipc_recv`, and with it `dtnipc_close`, can fail to return: nothing resets
  `errno`, so the end of file of a closed peer is retried for ever after a signal
  (`BodyHangsExactly`, `ExchangeHangsExactly`, `ExchangeCanHang`).
- A reply that announces 2^32 - 8 bytes or more is returned as a negative length
  with the connection left open (`OverlongExactly`, `Handle.Recv`).
- A cancel that loses the connection reports -1 instead of `DTN_ECOMM`
  (`LostCancelExactly`, `CancelCanBeLost`), so a close that follows sends its
  message on descriptor 0; every call does on a closed handle (`Handle.Close`).
- A registration can be used after deletion when a second event for it is queued
  behind one that deletes it (`DeletedUseExactly`, `DeletedUseLaw`, two reachable
  runs).
- A registration created passive with expiration 0 is expired from birth, and
  until it is bound no event is queued that would clean it up (`OwnershipLaw`,
  `BornExpiredIsForgotten`).
- For values above `LONG_MAX` and a first group of one digit no separators are
  written at all (`GroupingExactly`).
- Opening a contact while a bundle is being put in flight violates an assertion,
  and so does a transmission report after closing (`AssertionsExactly`,
  `ReopeningTooSoon`, `ReportAfterClosing`).
- `rwvall` returns `IOEOF`, or the code of whatever stopped it, also when bytes
  have been moved (`TransferExactly`, `EofHidesBytesExactly`, `OneByteHidden`).
- The list of buffers copied for a transfer is freed through a pointer that has
  moved on (`RwvAll`, `FirstBufferAlone`).
- The key marshaller reserves too little: `border` asks for its own length and
  `end_action` for one byte, where both stand behind the key. With a border an
  assertion of the buffer fails unless there was more room than the whole key
  needs beforehand; without one it can fail, too (`BorderedExactly`,
  `UnborderedExactly`, `FlatExactly`, `OneLetterDies`).
- 64-bit keys keep the low 32 bits: integers collide and change their order
  (`KeySerialize.RoundTripExactly`, `PrefixFree`, `OrderKeptExactly`,
  `LargeIntegersCollide`, `LargeIntegersMisorder`).
- A terminated buffer is unmarshalled with a length one too large
  (`Marshal.RoundTripExactly`, `ReceivedExactly`).
- A checksum mismatch counts only when a log is set (`ChecksumExactly`).
- `find` can leave the table with a single entry in it (`FindExactly`,
  `WalksOffTheEnd`).

The comment on `read_bytes` can be taken to promise a short count at the end of
the stream. The code returns 0 there and keeps the bytes; `Input.ReadBytes` says
so.

## Model

| member | source | states |
|---|---|---|
| `PermuteArgs.Gcd` | dtn_agent/oasys-1.4.0/compat/getopt_long.c:165-178 | the greatest common divisor, with Bezout coefficients as evidence |
| `PermuteArgs.BranchIsHop` | dtn_agent/oasys-1.4.0/compat/getopt_long.c:204-207 | the branch of the inner loop is one rotation step on the ring of both blocks |
| `PermuteArgs.CycleLength` | dtn_agent/oasys-1.4.0/compat/getopt_long.c:197-198 | the computed cycle length times the number of cycles is the length of both blocks together |
| `PermuteArgs.CycleIsInjective` | dtn_agent/oasys-1.4.0/compat/getopt_long.c:200-214 | a cycle meets no slot twice before its full length |
| `PermuteArgs.CycleCloses` | dtn_agent/oasys-1.4.0/compat/getopt_long.c:200-214 | after its full length a cycle is back at its start |
| `PermuteArgs.CycleKeepsResidue` | dtn_agent/oasys-1.4.0/compat/getopt_long.c:200-202 | cycles with different starts are disjoint: each stays in its residue class |
| `PermuteArgs.CycleCoversResidue` | dtn_agent/oasys-1.4.0/compat/getopt_long.c:200-202 | every slot of a residue class is reached, so the cycles together touch every slot |
| `PermuteArgs.CycleComplete` | dtn_agent/oasys-1.4.0/compat/getopt_long.c:203-213 | a finished cycle has filled its residue class and nothing else |
| `PermuteArgs.Permute` | dtn_agent/oasys-1.4.0/compat/getopt_long.c:185-215 | the two adjacent blocks are exchanged in place, each in its own order, nothing outside touched |
| `GetoptSpec.MatchIsUnique` | dtn_agent/oasys-1.4.0/compat/getopt_long.c:263-302 | the documented rule for abbreviated long options determines one answer |
| `GetoptSpec.Search` | dtn_agent/oasys-1.4.0/compat/getopt_long.c:263-302 | the answer follows that rule: an exact name wins, an abbreviation must have no rival with another effect |
| `GetoptSpec.SearchExactly` | dtn_agent/oasys-1.4.0/compat/getopt_long.c:263-302 | option by option: the first exact name; else nothing if and only if no name begins with the key, and ambiguity if and only if a later such name asks for another argument, flag or value than the first, or there is a later one at all in getopt_long_only |
| `GetoptSpec.ParseSplits` | dtn_agent/oasys-1.4.0/compat/getopt_long.c:427-505 | the option words and operands a whole scan reports interleave to exactly the words it passed |
| `GetoptSpec.ShuffleIsPermutation` | dtn_agent/oasys-1.4.0/compat/getopt_long.c:180-184 | what interleaves two sequences is a permutation of them |
| `GetoptSpec.OperandsOnlyWhenPermuting` | dtn_agent/oasys-1.4.0/compat/getopt_long.c:455-469 | operands are skipped only when they are to be permuted |
| `GetoptSpec.PrefixDecides` | dtn_agent/oasys-1.4.0/compat/getopt_long.c:398-415 | what a leading - or + decides, and POSIXLY_CORRECT without one |
| `GetoptSpec.PrefixStopsPermuting` | dtn_agent/oasys-1.4.0/compat/getopt_long.c:398-415 | a leading + or -, or POSIXLY_CORRECT without -, means that no operand is passed over, whatever the caller's flags |
| `GetoptLong.MatchLong` | dtn_agent/oasys-1.4.0/compat/getopt_long.c:250-302 | the one-pass search over the long options finds what the rule asks for |
| `GetoptLong.Getopt.constructor` | dtn_agent/oasys-1.4.0/compat/getopt_long.c:138-142 | the statics start a scan at the first argument with nothing passed |
| `GetoptLong.Getopt.ParseLongOptions` | dtn_agent/oasys-1.4.0/compat/getopt_long.c:222-381 | return value, cursor, optarg, optopt, index and stored flag are those of the long-option step, errors included |
| `GetoptLong.Getopt.TakeArgument` | dtn_agent/oasys-1.4.0/compat/getopt_long.c:303-381 | the part behind the search: the argument in the same word, the next, or missing, and the index and flag stored |
| `GetoptLong.Getopt.ReadLetter` | dtn_agent/oasys-1.4.0/compat/getopt_long.c:578-608 | a letter of the option string: clusters, attached, separate, missing and optional arguments |
| `GetoptLong.Getopt.ReadShort` | dtn_agent/oasys-1.4.0/compat/getopt_long.c:535-608 | the same for a short option: unknown letters, a lone dash, -W, and the letters of the option string |
| `GetoptLong.Getopt.ReadOption` | dtn_agent/oasys-1.4.0/compat/getopt_long.c:513-608 | the same for one option, long or short, with the fall-back from a failed long match to a short one |
| `GetoptLong.Getopt.PermuteSkipped` | dtn_agent/oasys-1.4.0/compat/getopt_long.c:473-479 | skipped operands are moved behind the option words that followed them; the scan so far is unchanged |
| `GetoptLong.Getopt.Finish` | dtn_agent/oasys-1.4.0/compat/getopt_long.c:430-447 | at the end the vector is the prefix, the option words, the operands, the rest, and optind is the first operand |
| `GetoptLong.Getopt.SkipOperand` | dtn_agent/oasys-1.4.0/compat/getopt_long.c:470-482 | one more operand is passed, whatever permutation is pending |
| `GetoptLong.Getopt.SkipOperands` | dtn_agent/oasys-1.4.0/compat/getopt_long.c:427-483 | the loop stops exactly at the next word that is not skipped, having passed the operands before it |
| `GetoptLong.Getopt.NextWord` | dtn_agent/oasys-1.4.0/compat/getopt_long.c:428-485 | either the next option word is under the cursor, or the call reports what the reference scanner reports |
| `GetoptLong.Getopt.OperandHere` | dtn_agent/oasys-1.4.0/compat/getopt_long.c:454-469 | an operand that is not permuted is returned as argument of option 1, or ends the scan |
| `GetoptLong.Getopt.EnterWord` | dtn_agent/oasys-1.4.0/compat/getopt_long.c:428-505 | either the cursor stands behind the dash of the next option word, with the operands skipped before it marked, or the call reports what the reference scanner reports |
| `GetoptLong.Getopt.EndOfOptions` | dtn_agent/oasys-1.4.0/compat/getopt_long.c:490-504 | after -- the operands lie from optind on and the option words, -- included, in front of them |
| `GetoptLong.Getopt.Restart` | dtn_agent/oasys-1.4.0/compat/getopt_long.c:417-429 | optind 0 or optreset starts over and means the same scan |
| `GetoptLong.Getopt.OptionHere` | dtn_agent/oasys-1.4.0/compat/getopt_long.c:507-608 | the option under the cursor is reported as the reference scanner reports it, and its words join those passed |
| `GetoptLong.Getopt.GetoptInternal` | dtn_agent/oasys-1.4.0/compat/getopt_long.c:387-609 | one re-entrant call reports exactly what the scanner that never permutes reports next, and leaves the statics describing the rest |
| `GetoptLong.Getopt.NothingLost` | dtn_agent/oasys-1.4.0/compat/getopt_long.c:424-505 | between any two calls the vector is a permutation that keeps the order of option words and the order of operands |
| `GetoptLong.Getopt.NothingMoved` | dtn_agent/oasys-1.4.0/compat/getopt_long.c:470-482 | until an operand has been skipped the vector is unchanged |
| `GetoptLong.OptionStepIsLocal` | dtn_agent/oasys-1.4.0/compat/getopt_long.c:507-608 | reading an option depends on its own and the following word only, not on what was permuted before it |
| `GetoptLong.Run` | dtn_agent/oasys-1.4.0/compat/getopt_long.c:387-609 | a whole run of calls reports the events of the reference scanner, optopt included, and when the options end exactly the operands lie from optind on, in their order |
| `GetoptRoundTrip.WrittenIsRead` | dtn_agent/oasys-1.4.0/compat/getopt_long.c:387-609 | a command line written from any list of letters known and unknown, arguments present and missing, names in four spellings (two dashes, one, -Wname, -W name), unknown, ambiguous, without their argument or with one too many, operands and an ending, is read back as that list: return value, optarg, optopt, index and flag of every call, by getopt_long and getopt_long_only, whether operands are permuted, reported in order, or end the scan |
| `GetoptLines.EveryLineIsWritten` | dtn_agent/oasys-1.4.0/compat/getopt_long.c:387-609 | every sequence of words whatever is such a command line, unless the scan can stop at a lone dash |
| `GetoptRoundTrip.EveryLineIsRead` | dtn_agent/oasys-1.4.0/compat/getopt_long.c:387-609 | so what is read of any vector is settled by a list it was written from |
| `GetoptRoundTrip.BareDashExactly` | dtn_agent/oasys-1.4.0/compat/getopt_long.c:538-544 | a scan can stop early inside a word at a lone dash if and only if there are no long options and - is no option letter |
| `DtnWire.Be32RoundTrip` | dtn_agent/dtn-2.7.0/applib/APIServer.cc:433-438 | a length or status survives the wire |
| `DtnWire.Be32` | dtn_agent/dtn-2.7.0/applib/APIServer.cc:433-438 | the most significant byte comes first |
| `DtnWire.RequestRoundTrip` | dtn_agent/dtn-2.7.0/applib/APIServer.cc:309-355 | the server cuts each request off its input as it was sent, whatever follows |
| `DtnWire.SendAllWrites` | dtn_agent/dtn-2.7.0/applib/dtn_ipc.c:253-282 | whatever the write calls do, what was written is the message or a proper beginning of it |
| `DtnWire.RecvBodyTakes` | dtn_agent/dtn-2.7.0/applib/dtn_ipc.c:328-350 | the body loop takes its bytes off the front of the input and loses none |
| `DtnWire.HeaderReceived` | dtn_agent/dtn-2.7.0/applib/dtn_ipc.c:303-319 | a header read whole decodes to the status and length that were sent |
| `DtnWire.ReplyReceived` | dtn_agent/dtn-2.7.0/applib/dtn_ipc.c:293-353 | for every split of the body a reply is received as sent; what is left is a suffix of what followed |
| `DtnWire.FramingExactly` | dtn_agent/dtn-2.7.0/applib/dtn_ipc.c:330-350 | no split swallows bytes of the next reply if and only if the body is empty, nothing follows, or the body fills the buffer |
| `DtnWire.BodyHangsExactly` | dtn_agent/dtn-2.7.0/applib/dtn_ipc.c:328-350 | the body loop goes round for ever if and only if it comes to a closed peer or a full buffer with the body incomplete and errno at EINTR, from a signal on the way or an earlier call |
| `DtnWire.EofStopsExactly` | dtn_agent/dtn-2.7.0/applib/dtn_ipc.c:340-347 | an end of file inside a body stops the loop there if and only if errno is not EINTR |
| `DtnWire.OverlongExactly` | dtn_agent/dtn-2.7.0/applib/dtn_ipc.c:314-352 | a reply counts as received with a negative length if and only if its header comes whole and announces 2^32 - 8 bytes or more; nothing behind the header is read then |
| `DtnTraffic.SentExactly` | dtn_agent/dtn-2.7.0/applib/dtn_ipc.c:253-282 | a message is written whole if and only if the outcomes in front of the first failure, or end of file not taken for a signal, take as many bytes |
| `DtnTraffic.BodyExactly` | dtn_agent/dtn-2.7.0/applib/dtn_ipc.c:328-350 | a body is read if and only if it fits the buffer, has been sent, and those outcomes bring as many bytes |
| `DtnTraffic.ReplyExactly` | dtn_agent/dtn-2.7.0/applib/dtn_ipc.c:293-353 | a waiting reply is received if and only if the first read brings its header in one piece and the outcomes behind it the body |
| `DtnClient.ExchangeHangsExactly` | dtn_agent/dtn-2.7.0/applib/dtn_ipc.c:361-382 | an exchange never ends if and only if the request is written, the header comes whole, and a closed peer or a full buffer is met inside the body after a signal since the exchange began, or with errno at EINTR from before |
| `DtnClient.ExchangeCanHang` | dtn_agent/dtn-2.7.0/applib/dtn_ipc.c:340-347 | one signal while a body is awaited, after which the peer closes, is enough |
| `DtnClient.QuietExchangeEnds` | dtn_agent/dtn-2.7.0/applib/dtn_ipc.c:253-350 | without a signal and with errno not at EINTR every exchange ends |
| `DtnClient.Handle.Send` | dtn_agent/dtn-2.7.0/applib/dtn_ipc.c:232-283 | the whole frame is written, or the handle is closed with DTN_ECOMM; at most one nested close; on a closed handle all of it happens on descriptor 0 |
| `DtnClient.Handle.Recv` | dtn_agent/dtn-2.7.0/applib/dtn_ipc.c:293-353 | status, length and body of the reply; or a negative length, the handle left open; or the handle closed with DTN_ECOMM; or, exactly when the body loop hangs, no return |
| `DtnClient.Handle.SendRecv` | dtn_agent/dtn-2.7.0/applib/dtn_ipc.c:361-382 | 0 or -1 and nothing else; a failure code is kept in err; no return exactly when the exchange hangs |
| `DtnClient.Handle.Close` | dtn_agent/dtn-2.7.0/applib/dtn_ipc.c:202-224 | the mutual recursion nests at most once more, and close returns, with sock 0, if and only if its own exchange does not hang; with DTN_ECOMM nothing is sent; a handle closed before, as by a cancel that lost the connection, sends on descriptor 0 |
| `DtnClient.DriveExchange` | dtn_agent/dtn-2.7.0/applib/dtn_ipc.c:361-382 | an exchange that ends a call: the client machine's answer to each outcome of the socket |
| `DtnClient.LostCancelExactly` | dtn_agent/dtn-2.7.0/applib/dtn_api.c:633-653 | a cancel is lost, with -1 in place of DTN_ECOMM, if and only if its first exchange breaks |
| `DtnClient.CancelCanBeLost` | dtn_agent/dtn-2.7.0/applib/dtn_api.c:633-653 | a broken connection is enough |
| `DtnClient.Handle.DtnSimple` | dtn_agent/dtn-2.7.0/applib/dtn_api.c:304-328 | refines the client machine's call that sends one request and reads one reply, poll guard and packing failure included |
| `DtnClient.Handle.DtnBeginPoll` | dtn_agent/dtn-2.7.0/applib/dtn_api.c:603-630 | refines the machine's call that leaves its reply outstanding |
| `DtnClient.Handle.DtnCancelPoll` | dtn_agent/dtn-2.7.0/applib/dtn_api.c:633-666 | refines the machine's two-reply cancel, which gives up after a failed first reply |
| `DtnClient.Handle.DtnReceive` | dtn_agent/dtn-2.7.0/applib/dtn_api.c:429-469 | refines the machine's receive, which first reads the outstanding poll reply |
| `DtnTraffic.SimpleTraffic` | dtn_agent/dtn-2.7.0/applib/dtn_api.c:304-328 | nothing is written in a poll, with DTN_EINPOLL, or when the arguments do not pack, with DTN_EXDR; otherwise one request with the call's own code and the arguments behind what the encoder held, and the reply's status is the error code unless it is success |
| `DtnTraffic.BeginTraffic` | dtn_agent/dtn-2.7.0/applib/dtn_api.c:603-630 | beginning a poll writes its request and reads nothing; the flag is up even when nothing could be packed |
| `DtnTraffic.CancelTraffic` | dtn_agent/dtn-2.7.0/applib/dtn_api.c:633-666 | a cancel writes its request with what the encoder held; out of a poll nothing, with DTN_EINVAL; a first reply that is a failure becomes -1, else the second reply's status is the error code |
| `DtnTraffic.ReceiveTraffic` | dtn_agent/dtn-2.7.0/applib/dtn_api.c:429-469 | in a poll nothing is written before the poll's reply was success without a body; then, or at once out of a poll, one exchange with the call's own code |
| `DtnTraffic.OwnRequestOnly` | dtn_agent/dtn-2.7.0/applib/dtn_api.c:304-666 | a call writes its own request, a beginning of it, or nothing, and a call that succeeds all of it |
| `DtnSession.CountingLaw` | dtn_agent/dtn-2.7.0/applib/dtn_api.c:603-666 | in every run, with any interleaving and any failures, what is queued, served or answered is what the client expects plus the stale replies |
| `DtnSession.EveryRunIsCounted` | dtn_agent/dtn-2.7.0/applib/dtn_api.c:603-666 | so from the opening of a session on |
| `DtnSession.LockstepExactly` | dtn_agent/dtn-2.7.0/applib/dtn_api.c:440-452 | a step from lockstep keeps it if and only if it is not a failed packing that leaves traces or a cancel whose first reply is a failure |
| `DtnSession.DataKeeps` | dtn_agent/dtn-2.7.0/applib/APIServer.cc:1475-1516 | in lockstep the only message that can interrupt a blocked poll is a cancel |
| `DtnSession.ChannelsAreFifo` | dtn_agent/dtn-2.7.0/applib/APIServer.cc:298-412 | messages leave at the front and come in at the back |
| `DtnSession.WaitEndsExactly` | dtn_agent/dtn-2.7.0/applib/APIServer.cc:1475-1520 | a session ends if and only if a wait is interrupted by anything but a bare cancel met while polling, with DTN_ECOMM for the request that waits; such a cancel is answered first and then the poll, both with success |
| `DtnSession.CleanRunsStayInLockstep` | dtn_agent/dtn-2.7.0/applib/APIServer.cc:298-412 | in every interleaving without such a step client and server agree on what is outstanding and the session is never broken off |
| `DtnSession.CleanSessionsStayInLockstep` | dtn_agent/dtn-2.7.0/applib/APIServer.cc:298-412 | so from the opening of a session on |
| `DtnSession.RepliesMatch` | dtn_agent/dtn-2.7.0/applib/dtn_api.c:649-663 | a call reads the reply to its own request, a receive first that of the poll, a cancel the two of the poll and itself in either order |
| `DtnSession.FramingIsSound` | dtn_agent/dtn-2.7.0/applib/dtn_ipc.c:328-350 | in lockstep the over-long read never swallows a later reply, since a reply with a body has no other behind it and none can come |
| `DtnSession.TimedOutPollLeavesReply` | dtn_agent/dtn-2.7.0/applib/dtn_api.c:649-653 | a poll that timed out and is then cancelled leaves a reply unread |
| `DtnSession.NextCallReadsStaleReply` | dtn_agent/dtn-2.7.0/applib/dtn_api.c:649-653 | from there the next call takes the left-over reply for its own |
| `DtnSession.StaleReplyBreaksFraming` | dtn_agent/dtn-2.7.0/applib/dtn_ipc.c:330-350 | and one call later the over-long read loses bytes of another reply |
| `Registrations.OwnershipLaw` | dtn_agent/dtn-2.7.0/applib/APIServer.cc:573-581 | after any run of any clients: active if and only if in exactly one binding list exactly once; what is bound is in the table; and an expired registration in the table that nobody holds lacks its expiry event if and only if it was created passive with expiration 0 and not bound since |
| `Registrations.ForgottenExactly` | dtn_agent/dtn-2.7.0/servlib/reg/Registration.cc:186-226 | of every state between steps: the event is missing exactly for such a registration |
| `Registrations.BornExpiredIsForgotten` | dtn_agent/dtn-2.7.0/applib/APIServer.cc:573-589 | a reachable state with such a registration in the table and an empty queue |
| `Registrations.StepKeeps` | dtn_agent/dtn-2.7.0/applib/APIServer.cc:601-768 | every handler, timer and daemon step keeps that |
| `Registrations.UnbindKeeps` | dtn_agent/dtn-2.7.0/applib/APIServer.cc:753-768 | the assertion in unbind cannot fail, and an expired registration leaves its event behind |
| `Registrations.UnregisterKeeps` | dtn_agent/dtn-2.7.0/applib/APIServer.cc:619-642 | force_expire meets an active registration whose timer is pending or has expired it |
| `Registrations.CloseKeeps` | dtn_agent/dtn-2.7.0/applib/APIServer.cc:210-232 | closing a client releases all it holds and keeps everybody else's bindings |
| `Registrations.FireKeeps` | dtn_agent/dtn-2.7.0/servlib/reg/Registration.cc:216-226 | an expiration timer keeps the invariant |
| `Registrations.ProcessKeeps` | dtn_agent/dtn-2.7.0/servlib/bundling/BundleDaemon.cc:1289-1372 | every daemon event keeps the invariant |
| `Registrations.DeletedUseExactly` | dtn_agent/dtn-2.7.0/applib/APIServer.cc:216-225 | a step leads the daemon to a deleted registration if and only if it lets go of, or unregisters, one whose expiry is queued, or fires a timer between removal and deletion |
| `Registrations.DeletedUseLaw` | dtn_agent/dtn-2.7.0/applib/APIServer.cc:216-225 | over whole runs: without such a step no deleted registration is ever used, and the first such step of a run leads to a use |
| `Registrations.DoomedDies` | dtn_agent/dtn-2.7.0/servlib/bundling/BundleDaemon.cc:1334-1372 | two events for one registration, the first of which deletes it, always end in a use of the deleted object |
| `Registrations.OneIdleReached` | dtn_agent/dtn-2.7.0/applib/APIServer.cc:573-589 | the state in which the next two runs start can be reached |
| `Registrations.LateTimerUsesDeleted` | dtn_agent/dtn-2.7.0/servlib/reg/Registration.cc:216-226 | a reachable run in which a timer fires between removal and deletion |
| `Registrations.RebindUsesDeleted` | dtn_agent/dtn-2.7.0/applib/APIServer.cc:701-718 | a reachable run in which a registration is bound and let go of while its expiry is queued |
| `RegistrationEffects.RegisterEffect` | dtn_agent/dtn-2.7.0/applib/APIServer.cc:568-598 | a fresh number in the table, active unless passive and then last in the client's list, expired at once for expiration 0 and with a timer otherwise; what no queued event speaks of is as it was |
| `RegistrationEffects.BindEffect` | dtn_agent/dtn-2.7.0/applib/APIServer.cc:684-723 | not found if and only if no API registration of the table, busy if and only if somebody holds it; otherwise active, last in the client's list, and nothing else changed |
| `RegistrationEffects.UnbindEffect` | dtn_agent/dtn-2.7.0/applib/APIServer.cc:726-771 | not found if and only if the client does not hold it; otherwise nobody does, its entry is gone from the list, and it is reported if it had expired; nothing else changed |
| `RegistrationEffects.UnregisterEffect` | dtn_agent/dtn-2.7.0/applib/APIServer.cc:601-643 | the exact condition of each of the four codes; the client's own registration is expired with its timer cancelled and nothing else changed; one that nobody has leaves the table, its object alive until the deletion posted last is handled |
| `RegistrationEffects.CloseEffect` | dtn_agent/dtn-2.7.0/applib/APIServer.cc:210-232 | everything the client held is inactive, what had expired is reported in the order of the list, and nothing else changed |
| `RegistrationEffects.TimerEffect` | dtn_agent/dtn-2.7.0/servlib/reg/Registration.cc:216-226 | expired, timer gone, and reported if and only if nobody holds it |
| `RegistrationEffects.EventEffect` | dtn_agent/dtn-2.7.0/servlib/bundling/BundleDaemon.cc:1289-1372 | what each event does to table, object and queue, by who holds the registration; nothing to any other |
| `RegistrationEffects.UnregisteredGoes` | dtn_agent/dtn-2.7.0/applib/APIServer.cc:619-631 | whatever anybody does after a client has unregistered what it holds: the registration stays expired, and as soon as nobody holds it the expiry is queued that takes it out of the table |
| `RegistrationServer.Server.HandleEvent` | dtn_agent/dtn-2.7.0/servlib/bundling/BundleDaemon.cc:1289-1372 | one turn of the daemon loop has the effect of the event on table, objects and queue |
| `RegistrationServer.Server.Wait` | dtn_agent/dtn-2.7.0/applib/APIServer.cc:587-588 | post_and_wait: the queue is worked through up to and including the event |
| `RegistrationServer.Server.IsBound` | dtn_agent/dtn-2.7.0/applib/APIServer.cc:455-466 | true if and only if the registration is in the client's list |
| `RegistrationServer.Server.HandleRegister` | dtn_agent/dtn-2.7.0/applib/APIServer.cc:568-598 | a new object with a fresh number, bound unless passive; the invariant holds |
| `RegistrationServer.Server.HandleBind` | dtn_agent/dtn-2.7.0/applib/APIServer.cc:684-723 | all error cases and the binding; the invariant holds |
| `RegistrationServer.Server.EraseBinding` | dtn_agent/dtn-2.7.0/applib/APIServer.cc:753-757 | the loop over the list erases the entry, if there is one |
| `RegistrationServer.Server.HandleUnbind` | dtn_agent/dtn-2.7.0/applib/APIServer.cc:726-771 | all error cases, the release and its assertion; the invariant holds |
| `RegistrationServer.Server.ForceExpire` | dtn_agent/dtn-2.7.0/servlib/reg/Registration.cc:115-142 | expired, timer gone; both assertions hold |
| `RegistrationServer.Server.HandleUnregister` | dtn_agent/dtn-2.7.0/applib/APIServer.cc:601-643 | all four outcomes; its assertion holds |
| `RegistrationServer.Server.CloseClient` | dtn_agent/dtn-2.7.0/applib/APIServer.cc:210-232 | the loop releases front to back; only this client's list disappears |
| `RegistrationServer.Server.Timeout` | dtn_agent/dtn-2.7.0/servlib/reg/Registration.cc:216-226 | the timer marks the object expired and posts an event only if nobody holds it |
| `Digits.Decimal` | dtn_agent/oasys-1.4.0/debug/vfprintf.c:263-296 | the decimal digit loop writes backwards the digits and separators still due when one digit of the first group may be out already |
| `Digits.Ultoa` | dtn_agent/oasys-1.4.0/debug/vfprintf.c:245-319 | the text of the value stands at the end of the 100-byte buffer, in each base |
| `Digits.Ujtoa` | dtn_agent/oasys-1.4.0/debug/vfprintf.c:322-391 | the same for intmax_t, small values through __ultoa |
| `Digits.FitsScratch` | dtn_agent/oasys-1.4.0/debug/vfprintf.c:488-495 | even a 128-bit value with a separator between any two digits needs at most 77 of the 100 bytes |
| `Digits.ReadsBack` | dtn_agent/oasys-1.4.0/debug/vfprintf.c:245-319 | with separators removed the text evaluates back to the value, for every base, rule and value; the alternate octal form begins with a zero |
| `Digits.StripGrouped` | dtn_agent/oasys-1.4.0/debug/vfprintf.c:276-296 | removing the separators gives back the digits for every grouping rule |
| `Digits.GroupingExactly` | dtn_agent/oasys-1.4.0/debug/vfprintf.c:270-296 | the separators are where the locale's rule puts them if and only if the value is at most LONG_MAX or the first group is not of size 1 |
| `Digits.SeparatorsAt` | dtn_agent/oasys-1.4.0/debug/vfprintf.c:276-291 | the k-th separator from the right stands in front of exactly k groups, the last size given repeating, whenever one is due |
| `Digits.SeparatorsCounted` | dtn_agent/oasys-1.4.0/debug/vfprintf.c:276-291 | and there are as many as are due |
| `Digits.LoopsAgreeExactly` | dtn_agent/oasys-1.4.0/debug/vfprintf.c:322-391 | the two conversions agree on a value both can take except when only one of them skips that check |
| `PrintfLaws.NumericRead` | dtn_agent/oasys-1.4.0/debug/vfprintf.c:851-857 | a number written in decimal is the number read, up to the first character that is no digit |
| `PrintfLaws.DirectiveReadBack` | dtn_agent/oasys-1.4.0/debug/vfprintf.c:788-902 | a directive written with its flags in any order and number, a width, a precision and a length modifier is read as what ISO C says it means |
| `PrintfLaws.MarksMean` | dtn_agent/oasys-1.4.0/debug/vfprintf.c:797-842 | flags may come in any order and more than once; + wins over a space |
| `PrintfLaws.IntegerReadsBack` | dtn_agent/oasys-1.4.0/debug/vfprintf.c:1263-1413 | a printed integer, in every layout, reads back as the value of its argument |
| `PrintfLaws.RenderingReadsBack` | dtn_agent/oasys-1.4.0/debug/vfprintf.c:773-1419 | from the format string to the number: the rendering of a directive reads back as its argument |
| `PrintfLaws.InRangeIsKept` | dtn_agent/oasys-1.4.0/debug/vfprintf.c:679-699 | an argument in the range of the type its length modifiers name is printed as it is |
| `PrintfLaws.AloneRenders` | dtn_agent/oasys-1.4.0/debug/vfprintf.c:773-1419 | a directive on its own, written in any way, renders as the field it means |
| `PrintfLaws.StringRendering` | dtn_agent/oasys-1.4.0/debug/vfprintf.c:1197-1413 | from the format string to the text: %s prints the longest beginning its precision allows, at the side and with the fill its flags ask for; a null pointer prints as (null) |
| `PrintfLayouts.IntegerRendering` | dtn_agent/oasys-1.4.0/debug/vfprintf.c:1263-1413 | from the format string to the text of an integer: sign, prefix, zeros up to the precision and digits, each from the marks that ask for it, in a field of the given width with blanks on the side asked for or zeros behind sign and prefix, which a precision cancels |
| `PrintfLayouts.CharacterRendering` | dtn_agent/oasys-1.4.0/debug/vfprintf.c:903-924 | %c prints the one character of its argument in its field |
| `PrintfLayouts.OtherRendering` | dtn_agent/oasys-1.4.0/debug/vfprintf.c:1301-1309 | a character that is no conversion, such as a percent sign, prints itself and takes no argument |
| `PrintfLayouts.AnyArgumentWraps` | dtn_agent/oasys-1.4.0/debug/vfprintf.c:679-699 | an argument of any size is printed as the value of the named type that it equals modulo the size of that type |
| `PrintfLayouts.SizesWrap` | dtn_agent/oasys-1.4.0/debug/vfprintf.c:690-699 | z and t take arguments of the size of a long, whatever an intmax_t has |
| `PrintfLayouts.CapitalsAreLong` | dtn_agent/oasys-1.4.0/debug/vfprintf.c:925-944 | D, O and U print what d, o and u print with the modifier l |
| `PrintfStars.StarsRender` | dtn_agent/oasys-1.4.0/debug/vfprintf.c:809-850 | a width or precision given as an argument prints what the number written out prints; a negative width is a minus sign and a width, a negative precision none |
| `PrintfFormats.FormatRenders` | dtn_agent/oasys-1.4.0/debug/vfprintf.c:773-1419 | a format written out from literal texts and directives renders as those texts and the fields the directives mean, each with its own argument, in order |
| `PrintfLaws.PaddingSide` | dtn_agent/oasys-1.4.0/debug/vfprintf.c:1338-1413 | a field is the bare field padded with blanks on one side, or with zeros behind sign and prefix |
| `PrintfLaws.PiecesAt` | dtn_agent/oasys-1.4.0/debug/vfprintf.c:773-1419 | a directive renders as its field in front of the rest |
| `BoundedPrintf.LayoutSize` | dtn_agent/oasys-1.4.0/debug/vfprintf.c:1326-1332 | padding, prefix, precision zeros and digits always total the larger of width and real size |
| `BoundedPrintf.Output.Print` | dtn_agent/oasys-1.4.0/debug/vfprintf.c:631-636 | each step stores what fits, and the buffer always holds the first characters of all that was meant |
| `BoundedPrintf.Output.Pad` | dtn_agent/oasys-1.4.0/debug/vfprintf.c:639-647 | padding in chunks of 16 is the padding asked for |
| `BoundedPrintf.ScanDirective` | dtn_agent/oasys-1.4.0/debug/vfprintf.c:788-902 | the flag loop reads the directive of the specification |
| `BoundedPrintf.Convert` | dtn_agent/oasys-1.4.0/debug/vfprintf.c:903-1320 | each modelled conversion makes of its argument the field of the specification |
| `BoundedPrintf.PrintField` | dtn_agent/oasys-1.4.0/debug/vfprintf.c:1338-1413 | the seven output steps print the field |
| `BoundedPrintf.TextStep` | dtn_agent/oasys-1.4.0/debug/vfprintf.c:774-785 | literal text is counted and printed, or the count has left the range of an int |
| `BoundedPrintf.FieldStep` | dtn_agent/oasys-1.4.0/debug/vfprintf.c:786-1416 | so is one directive |
| `BoundedPrintf.Scan` | dtn_agent/oasys-1.4.0/debug/vfprintf.c:770-1422 | what is printed is the rendering as far as it can be counted, and the count is its length or -1 |
| `BoundedPrintf.LogVsnprintf` | dtn_agent/oasys-1.4.0/debug/vfprintf.c:520-1446 | the first size-1 characters of the rendering and a NUL are stored, nothing else is touched, and the return value is the full length, whatever the size; size 0 gives -1 |
| `BoundedPrintf.BoundedRendering` | dtn_agent/oasys-1.4.0/debug/vfprintf.c:759-768 | those are the first min(length, size-1) characters of the unbounded rendering |
| `BoundedPrintf.CountableExactly` | dtn_agent/oasys-1.4.0/debug/vfprintf.c:774-785 | of a rendering too long for an int whole texts and fields are printed up to the one that would not fit the count |
| `SimLink.DeliveryLaw` | dtn_agent/dtn-2.7.0/sim/SimConvergenceLayer.cc:151-229 | in every reachable state what was delivered followed by what is still to arrive is what was started, in order, and likewise for reports and for what was put in flight; the queue holds the rest |
| `SimLink.StepKeeps` | dtn_agent/dtn-2.7.0/sim/SimConvergenceLayer.cc:231-365 | every step keeps each timer armed exactly while something is queued, at the time of the first event |
| `SimLink.ArrivedKeeps` | dtn_agent/dtn-2.7.0/sim/SimConvergenceLayer.cc:302-333 | an arrival timer always finds an event and delivers at least one |
| `SimLink.NothingStuck` | dtn_agent/dtn-2.7.0/sim/SimConvergenceLayer.cc:231-252 | no lost wakeups: on an open link with no timer armed everything ever queued has been delivered, in order, and reported |
| `SimLink.AssertionsExactly` | dtn_agent/dtn-2.7.0/sim/SimConvergenceLayer.cc:151-156 | the assertions fail if and only if a contact opens while a bundle is being put in flight, or a report is due while the link is closed |
| `SimLink.ReopeningTooSoon` | dtn_agent/dtn-2.7.0/sim/SimConvergenceLayer.cc:430-452 | the first of these can be reached |
| `SimLink.ReportAfterClosing` | dtn_agent/dtn-2.7.0/sim/SimConvergenceLayer.cc:336-350 | so can the second, with the report of a bundle sent without delay or answer |
| `SimLink.ReportsMatchArrivals` | dtn_agent/dtn-2.7.0/sim/SimConvergenceLayer.cc:195-224 | over a whole run at a fixed latency and mode the k-th arrival and the k-th report are of one bundle and length, and one latency apart, the report later in reliable mode and earlier otherwise |
| `SimLink.NothingOverdue` | dtn_agent/dtn-2.7.0/sim/SimConvergenceLayer.cc:307-329 | at a fixed latency the queues stay sorted and, once the timer thread has caught up, hold no overdue event |
| `SimLink.LeavesDueExactly` | dtn_agent/dtn-2.7.0/sim/SimConvergenceLayer.cc:307-329 | for any queue the handler leaves a due event behind if and only if one that is not due stands in front of it |
| `SimTiming.TimingLaw` | dtn_agent/dtn-2.7.0/sim/SimConvergenceLayer.cc:195-228 | at any delays, latencies and modes of a run: the k-th bundle started arrives one delay and one latency after its start, its report is due two latencies after its delay in reliable mode and none otherwise, the bundle being put in flight and its timer stand at its start and its delay, and none starts before the one in front of it is in flight |
| `SimTiming.StartsExactly` | dtn_agent/dtn-2.7.0/sim/SimConvergenceLayer.cc:286-299 | which steps start a bundle, and that it is the one in front |
| `SimTiming.NextStart` | dtn_agent/dtn-2.7.0/sim/SimConvergenceLayer.cc:275-299 | the link is taken until the delay of a start is over; the first in-flight firing from then on starts the next bundle if one waits |
| `SimTiming.QueuedOnce` | dtn_agent/dtn-2.7.0/servlib/contacts/Link.cc:481-498 | no bundle is ever queued twice, and queueing it again changes nothing |
| `SimLink.Contact.StartNextBundle` | dtn_agent/dtn-2.7.0/sim/SimConvergenceLayer.cc:151-228 | one bundle starts, with its three times, in all three queues |
| `SimLink.Contact.RescheduleTimers` | dtn_agent/dtn-2.7.0/sim/SimConvergenceLayer.cc:231-252 | only idle timers are armed, each for the head of its queue |
| `SimLink.Contact.HandlePendingInflight` | dtn_agent/dtn-2.7.0/sim/SimConvergenceLayer.cc:275-299 | a bundle whose time has come leaves the queue and the next one starts |
| `SimLink.Contact.HandleArrivalEvents` | dtn_agent/dtn-2.7.0/sim/SimConvergenceLayer.cc:302-333 | the loop delivers exactly the due events at the front |
| `SimLink.Contact.HandleTransmittedEvents` | dtn_agent/dtn-2.7.0/sim/SimConvergenceLayer.cc:336-365 | so for the transmission reports; its assertion holds |
| `SimLink.Contact.OpenContact` | dtn_agent/dtn-2.7.0/sim/SimConvergenceLayer.cc:430-452 | opening starts a waiting bundle |
| `SimLink.Contact.BundleQueued` | dtn_agent/dtn-2.7.0/sim/SimConvergenceLayer.cc:466-482 | queueing starts the bundle on an idle open link |
| `SimLink.Contact.Timeout` | dtn_agent/dtn-2.7.0/sim/SimConvergenceLayer.cc:255-272 | a timer callback runs its handler with the handler's own assertion met, and keeps the invariant |
| `IoVec.COWIoVec.constructor` | dtn_agent/oasys-1.4.0/io/IO.cc:46-57 | the bytes left are those of all buffers |
| `IoVec.COWIoVec.Copy` | dtn_agent/oasys-1.4.0/io/IO.cc:108-123 | from now on the list is private and stands for the same bytes |
| `IoVec.COWIoVec.DropBytes` | dtn_agent/oasys-1.4.0/io/IO.cc:84-99 | the loop drops exactly so many bytes from the front, whole buffers and part of one |
| `IoVec.COWIoVec.Consume` | dtn_agent/oasys-1.4.0/io/IO.cc:70-106 | exactly cc bytes are dropped from what is left, and the caller's array is never written |
| `IoVec.COWIoVec.Destroy` | dtn_agent/oasys-1.4.0/io/IO.cc:60-65 | a copy that was allocated is freed as such only while the pointer stands at its beginning |
| `IoVec.TransferSome` | dtn_agent/oasys-1.4.0/io/IO.cc:985-1009 | what one transfer moved is what is consumed |
| `IoVec.RwvAll` | dtn_agent/oasys-1.4.0/io/IO.cc:967-1017 | for any sequence of transfers the caller's buffers are moved in order exactly once and the total is returned; an early stop has moved a proper beginning; and what is freed in the end is the allocated copy if and only if it was needed and its first buffer was not used up |
| `IoVec.FirstBufferAlone` | dtn_agent/oasys-1.4.0/io/IO.cc:70-106 | with more than 16 buffers a first transfer of just the first one is enough: a pointer into the copy is freed, or, if the rest follows, none |
| `IoVec.FreedRightExactly` | dtn_agent/oasys-1.4.0/io/IO.cc:59-106 | what is freed is what was allocated if and only if there were at most 16 buffers, the first transfer moved all or nothing was moved, or the first buffer was never used up |
| `IoVec.TransferExactly` | dtn_agent/oasys-1.4.0/io/IO.cc:984-1012 | a transfer is complete if and only if the attempts before the first stop offer enough; otherwise it moves what they offer and returns the code of the stop |
| `IoVec.EofHidesBytesExactly` | dtn_agent/oasys-1.4.0/io/IO.cc:993-1001 | the end of file reported hides moved bytes if and only if the first stop is an end of file and some bytes, not all, were on offer before it |
| `IoVec.OneByteHidden` | dtn_agent/oasys-1.4.0/io/IO.cc:993-1001 | a script in which it does |
| `IoVec.ScatterSplit` | dtn_agent/oasys-1.4.0/io/IO.cc:984-1013 | however a read is split, memory ends up the same |
| `IoVec.ScatterPlaces` | dtn_agent/oasys-1.4.0/io/IO.cc:984-1013 | the k-th byte read stands at the k-th address of the buffers |
| `BufferedInput.FirstMatchStable` | dtn_agent/oasys-1.4.0/io/BufferedIO.cc:234-260 | more data behind it does not change where a terminator first matches |
| `BufferedInput.StreamBuffer.Reserve` | dtn_agent/oasys-1.4.0/util/StreamBuffer.cc:74-91 | room is made at the end and the contents are unchanged, by moving or by growing |
| `BufferedInput.StreamBuffer.MoveUp` | dtn_agent/oasys-1.4.0/util/StreamBuffer.cc:145-155 | compaction keeps the contents |
| `BufferedInput.StreamBuffer.Consume` | dtn_agent/oasys-1.4.0/util/StreamBuffer.cc:102-112 | bytes leave at the front, an empty buffer starts over |
| `BufferedInput.Input.InternalRead` | dtn_agent/oasys-1.4.0/io/BufferedIO.cc:174-231 | bytes move from client to buffer and none is lost, on an end, a timeout or an error either |
| `BufferedInput.Input.FindNl` | dtn_agent/oasys-1.4.0/io/BufferedIO.cc:234-260 | the first match in the buffer, or none |
| `BufferedInput.Input.ReadLine` | dtn_agent/oasys-1.4.0/io/BufferedIO.cc:47-72 | a line is the shortest beginning of everything to come that ends in nl; it is found if and only if nl stands in what comes before the client's next end or error; otherwise that end or error is returned and nothing is consumed |
| `BufferedInput.Input.ReadBytes` | dtn_agent/oasys-1.4.0/io/BufferedIO.cc:74-107 | len bytes from the front if and only if as many come before the client's next end or error; otherwise that is returned and nothing is consumed |
| `BufferedInput.Input.ReadSomeBytes` | dtn_agent/oasys-1.4.0/io/BufferedIO.cc:110-143 | all that is buffered, after at most one read |
| `BufferedInput.ChunksDoNotMatter` | dtn_agent/oasys-1.4.0/io/BufferedIO.cc:47-72 | of two readers of one stream, however it is chunked and interrupted, one has read a beginning of the lines of the other |
| `BufferedInput.LinesAreTheStream` | dtn_agent/oasys-1.4.0/io/BufferedIO.cc:47-72 | the lines and what is left are the stream |
| `BufferedInput.ReadsNext` | dtn_agent/oasys-1.4.0/io/BufferedIO.cc:47-72 | a reader's next line extends what it has read |
| `BufferedInput.ReadLines` | dtn_agent/oasys-1.4.0/io/BufferedIO.cc:47-72 | a loop over read_line gets exactly the lines in what comes before the client's next end or error |
| `KeySerialize.FieldReadBack` | dtn_agent/oasys-1.4.0/serialize/KeySerialize.cc:230-470 | one field of a key is read back, its border skipped, wherever it stands |
| `KeySerialize.FieldLooks` | dtn_agent/oasys-1.4.0/serialize/KeySerialize.cc:33-169 | each field as it stands in a key: lower-case hexadecimal, two digits a byte, most significant first, zeros in front or blanks for 64 bits; lengths in eight digits; 1 or 0; the border behind |
| `KeySerialize.TextIsNumber` | dtn_agent/oasys-1.4.0/serialize/KeySerialize.cc:412-464 | the number in any text that begins like one: white space, a sign, 0x and digits of either case as far as they go |
| `KeySerialize.RoundTripExactly` | dtn_agent/oasys-1.4.0/serialize/KeySerialize.cc:220-470 | unmarshalling a whole key consumes all of it and gives the object back if and only if no 64-bit integer needs more than 32 bits, for every border |
| `KeySerialize.PrefixFree` | dtn_agent/oasys-1.4.0/serialize/KeySerialize.cc:33-217 | one key is the beginning of another, for every border, if and only if the objects differ at most in the upper halves of 64-bit integers, and then the keys are equal |
| `KeySerialize.LargeIntegersCollide` | dtn_agent/oasys-1.4.0/serialize/KeySerialize.cc:33-41 | two 64-bit integers with one key |
| `KeySerialize.RememberedOrder` | dtn_agent/oasys-1.4.0/serialize/KeySerialize.cc:33-83 | the byte order of keys is the field-by-field order of what the keys keep, for all numeric records, borders and blank padding included |
| `KeySerialize.OrderPreserved` | dtn_agent/oasys-1.4.0/serialize/KeySerialize.cc:33-83 | so of the records themselves, as long as their 64-bit integers fit 32 bits |
| `KeySerialize.OrderKeptExactly` | dtn_agent/oasys-1.4.0/serialize/KeySerialize.cc:33-83 | the order is kept for all records of a numeric schema if and only if it has no 64-bit field |
| `KeySerialize.LargeIntegersMisorder` | dtn_agent/oasys-1.4.0/serialize/KeySerialize.cc:33-41 | two 64-bit integers whose keys are in the wrong order |
| `KeySerialize.HexOrder` | dtn_agent/oasys-1.4.0/serialize/KeySerialize.cc:181-203 | padded hexadecimal numbers of one width compare as numbers |
| `KeyRoom.BorderedExactly` | dtn_agent/oasys-1.4.0/serialize/KeySerialize.cc:171-217 | with a border that is not empty a record is marshalled if and only if more room than the whole key needs was reserved beforehand; otherwise an assertion of the buffer fails |
| `KeyRoom.BorderNeedsRoom` | dtn_agent/oasys-1.4.0/serialize/KeySerialize.cc:206-217 | a border behind something else fits if and only if there was room for it before it was reserved |
| `KeyRoom.UnborderedExactly` | dtn_agent/oasys-1.4.0/serialize/KeySerialize.cc:84-203 | without a border, or with an empty one, if and only if each empty text, each empty border and the end of each object finds a byte to spare: reserved beforehand, or left by digits just printed, or by a NUL put into an empty buffer |
| `KeyRoom.FlatExactly` | dtn_agent/oasys-1.4.0/serialize/KeySerialize.cc:139-203 | a flat record without empty texts and without a border if and only if there was more room than the key needs or its last field is a number or a boolean |
| `KeyRoom.OneLetterDies` | dtn_agent/oasys-1.4.0/serialize/KeySerialize.cc:139-177 | a string of one letter into a fresh buffer fails an assertion |
| `KeyActions.ExpandableBuffer.Reserve` | dtn_agent/oasys-1.4.0/util/ExpandableBuffer.h:83-91 | the buffer has at least that size and holds what it held |
| `KeyActions.ExpandableBuffer.Append` | dtn_agent/oasys-1.4.0/util/ExpandableBuffer.h:118-136 | bytes go to the end of what is used |
| `KeyActions.KeyMarshal.ProcessInt` | dtn_agent/oasys-1.4.0/serialize/KeySerialize.cc:179-203 | digits and a NUL behind them always find their room |
| `KeyActions.KeyMarshal.ProcessBytes` | dtn_agent/oasys-1.4.0/serialize/KeySerialize.cc:93-95 | bytes are appended, or there is no byte to point at and the assertion of end() fails |
| `KeyActions.KeyMarshal.Border` | dtn_agent/oasys-1.4.0/serialize/KeySerialize.cc:206-217 | the border is appended, or an assertion fails for want of room |
| `KeyActions.KeyMarshal.EndAction` | dtn_agent/oasys-1.4.0/serialize/KeySerialize.cc:171-177 | a NUL stands behind the key, or the assertion of end() fails |
| `KeyActions.KeyMarshal.Process` | dtn_agent/oasys-1.4.0/serialize/KeySerialize.cc:33-169 | the field and its border are appended, or an assertion fails, exactly as the room law says; nothing after an error |
| `KeyActions.KeyMarshal.Serialize` | dtn_agent/oasys-1.4.0/serialize/KeySerialize.cc:155-169 | so for the fields of an object |
| `KeyActions.KeyMarshal.Action` | dtn_agent/oasys-1.4.0/serialize/Serialize.cc:44-57 | so for an object with the NUL behind it, nested objects included |
| `KeyActions.KeyUnmarshal.ProcessInt` | dtn_agent/oasys-1.4.0/serialize/KeySerialize.cc:412-464 | a number of fixed width, or an error when the key is too short |
| `KeyActions.KeyUnmarshal.Process` | dtn_agent/oasys-1.4.0/serialize/KeySerialize.cc:230-406 | the unmarshaller reads what the specification reads; an error sticks |
| `KeyActions.StoreAndLoad` | dtn_agent/oasys-1.4.0/serialize/KeySerialize.cc:33-470 | a record written into a buffer of a given size is marshalled exactly when the room law says so, and then comes back without error, as itself if and only if its 64-bit integers fit 32 bits |
| `Marshal.BigEndianBack` | dtn_agent/oasys-1.4.0/serialize/MarshalSerialize.cc:247-285 | integers survive the byte order |
| `Marshal.BigEndianByte` | dtn_agent/oasys-1.4.0/serialize/MarshalSerialize.cc:68-110 | the most significant byte comes first |
| `Marshal.FromBigBack` | dtn_agent/oasys-1.4.0/serialize/MarshalSerialize.cc:247-285 | any bytes are those of the number they are read as |
| `Marshal.SizeIsExact` | dtn_agent/oasys-1.4.0/serialize/MarshalSerialize.cc:412-503 | the size computed beforehand is the length of the flat form |
| `Marshal.FlatBack` | dtn_agent/oasys-1.4.0/serialize/MarshalSerialize.cc:219-404 | what was written is read back wherever it stands and whatever follows |
| `Marshal.RoundTripExactly` | dtn_agent/oasys-1.4.0/serialize/MarshalSerialize.cc:48-404 | the object comes back if and only if its schema has no terminated buffer; exactly its bytes are consumed either way |
| `Marshal.ReceivedExactly` | dtn_agent/oasys-1.4.0/serialize/MarshalSerialize.cc:354-381 | a terminated buffer never comes back as it was: the carrier claims one byte more |
| `Marshal.ChecksumExactly` | dtn_agent/oasys-1.4.0/serialize/MarshalSerialize.cc:219-244 | a buffer as written always passes; one with another checksum is turned down if and only if a log is set |
| `MarshalActions.FittingExactly` | dtn_agent/oasys-1.4.0/serialize/BufferedSerializeAction.cc:79-101 | everything is written if and only if it fits as a whole; what is written is made of whole slices |
| `MarshalActions.MarshalAction.Put` | dtn_agent/oasys-1.4.0/serialize/BufferedSerializeAction.cc:79-101 | a slice is handed out and filled, or the error flag sticks; in both buffer modes |
| `MarshalActions.MarshalAction.Process` | dtn_agent/oasys-1.4.0/serialize/MarshalSerialize.cc:68-203 | one field asks for its slices one after the other |
| `MarshalActions.MarshalAction.Action` | dtn_agent/oasys-1.4.0/serialize/MarshalSerialize.cc:48-64 | the fields, then the checksum of what was written |
| `MarshalActions.MarshalFixed` | dtn_agent/oasys-1.4.0/serialize/BufferedSerializeAction.cc:79-101 | marshalling into a fixed buffer succeeds if and only if the size is at most its length, and ends at that offset; otherwise whole slices of the beginning were written, and nothing behind the offset is touched |
| `MarshalActions.SizeAction.Process` | dtn_agent/oasys-1.4.0/serialize/MarshalSerialize.cc:412-503 | each field adds its size |
| `MarshalActions.UnmarshalAction.NextSlice` | dtn_agent/oasys-1.4.0/serialize/BufferedSerializeAction.cc:79-101 | a slice or an error that sticks |
| `MarshalActions.UnmarshalAction.ProcessTerminated` | dtn_agent/oasys-1.4.0/serialize/MarshalSerialize.cc:354-381 | byte by byte to the first terminator |
| `MarshalActions.UnmarshalAction.Process` | dtn_agent/oasys-1.4.0/serialize/MarshalSerialize.cc:247-404 | without an error the values assigned are those of the specification; an error sticks |
| `MarshalActions.UnmarshalAction.CheckedRun` | dtn_agent/oasys-1.4.0/serialize/MarshalSerialize.cc:218-244 | the checksum comes first and counts only with a log |
| `MarshalActions.Copy` | dtn_agent/oasys-1.4.0/serialize/MarshalSerialize.cc:573-590 | dst equals src if and only if no field is a terminated buffer; the size is that of the flat form |
| `MemTable.FindsTheEntry` | dtn_agent/oasys-1.4.0/memory/Memory.h:156-172 | find reaches the slot of a stored call site, and there is only one |
| `MemTable.FindExactly` | dtn_agent/oasys-1.4.0/memory/Memory.h:164-169 | find stays within the table if and only if from the home slot on there is an empty slot or the call site itself |
| `MemTable.WalksOffTheEnd` | dtn_agent/oasys-1.4.0/memory/Memory.h:164-169 | a table with a single entry is enough to walk off the end |
| `MemTable.IncRefines` | dtn_agent/oasys-1.4.0/memory/Memory.h:177-196 | the call site's counts go up and no other call site's change, whether in the table or not |
| `MemTable.DecRefines` | dtn_agent/oasys-1.4.0/memory/Memory.h:201-219 | likewise down |
| `MemTable.TableLaw` | dtn_agent/oasys-1.4.0/memory/Memory.h:146-219 | after any run the table says of every call site what is true of the live blocks, and neither panic is reached |
| `MemTable.FramelessIsForgotten` | dtn_agent/oasys-1.4.0/memory/Memory.h:164-185 | a call site without a first frame is not found again |
| `MemTable.DbgMemInfo.FindSlot` | dtn_agent/oasys-1.4.0/memory/Memory.h:156-172 | the probing loop finds that slot |
| `MemTable.DbgMemInfo.Count` | dtn_agent/oasys-1.4.0/memory/Memory.h:177-196 | inc updates its entry in place and keeps the table |
| `MemTable.DbgMemInfo.Uncount` | dtn_agent/oasys-1.4.0/memory/Memory.h:201-219 | dec updates its entry in place; its two panics are not reached |

## Left out

- GetoptLong.Getopt.GetoptInternal: a long option whose `val` is -1 and whose `flag` is null is excluded, since its return value cannot be told from the end marker; `options == NULL`, which returns -1 at once, the messages printed under `opterr` and the choice between their texts are not modelled; the branches compiled under `GNU_COMPATIBLE` are the ones modelled. Mixing calls that read in order with calls that have skipped operands in one scan is excluded.
- GetoptLong.Getopt.ReadOption: a `val` of -1 with a null `flag`, as above: the code then takes what is left of the name for short options with the cursor already past it, and a later call can look behind the vector.
- GetoptLong.Getopt.OptionHere: a `val` of -1 with a null `flag`, as above.
- GetoptLong.Run: a `val` of -1 with a null `flag`, as above.
- GetoptLines.EveryLineIsWritten: a word on which the scan stops at a lone dash is covered by the reference scanner only.
- DtnWire.BodyHangsExactly: a write to a socket whose script is used up fails, so the write loop always ends; a read with no room in the buffer returns 0.
- DtnClient.Handle.Close: only as the transport and the calls use it; `dtn_close` in the middle of a poll is not a step of the session model.
- DtnClient.Handle.DtnReceive: unpacking the reply's XDR body and moving payload files come after the exchange that is modelled; request payloads are opaque bytes that may fail to pack.
- DtnSession.CountingLaw: server handlers are atomic; transport errors and the codes that end a session are in DtnClient and DtnWire, not in the interleaving model.
- Registrations.OwnershipLaw: XDR, endpoint and flag checks in front of the handlers, custody sessions, `find_registration`, storage of registrations across restarts and delivery of bundles are not modelled; each handler is one atomic step, and the deletion that an expiry posts at the head of the queue is one step with it.
- Digits.Ultoa: the separator is a parameter, the locale lookup is not modelled; group sizes of zero cannot occur in a C string.
- PrintfSpec.Pieces: floating point, wide characters, `%n`, positional arguments and `%p` with its formatter hook (which looks at the truncated buffer) are not modelled; a format that uses them has no rendering here. Widths, precisions and lengths are unbounded integers where C would overflow an int; a platform where size_t and ptrdiff_t have the width of long.
- BoundedPrintf.LogVsnprintf: formats that use what PrintfSpec.Pieces leaves out are excluded.
- SimLink.DeliveryLaw: one contact of one link; bundle production, payload location, cancelling or expiring bundles that wait on the link, the daemon's own in-flight list and deletion of the link are not modelled; the token bucket is an arbitrary delay. `pending_inflight_` starts as null, which the constructor does not see to.
- IoVec.RwvAll: the timeout arithmetic and logging are not modelled; `total_bytes` is not cut to an int.
- BufferedInput.Input.ReadLine: the returned pointer aliases the buffer until the next call; the model returns the bytes. `BufferedOutput` is not modelled.
- KeySerialize.RoundTripExactly: buffers have fewer than 2^32 bytes and the cursor does not wrap; a string whose announced length runs past the key, which the code reads anyway, counts as an error here.
- KeyRoom.BorderedExactly: the buffer is a plain one and memory does not run out; a `ScratchBuffer` differs in that it doubles when 0 bytes are asked for, which only an empty border and an empty fixed buffer in front of everything else do.
- Marshal.RoundTripExactly: strings of 2^32 - 4 bytes or more, whose size wraps, are excluded; a checked buffer has at least the four bytes of the checksum; the checksum is an arbitrary function.
- MarshalActions.UnmarshalAction.Process: after an error a carrier is still set, to a null pointer with a length, and with a log that pointer is read; the model says nothing of values after an error.
- MemTable.TableLaw: runs in which `find` stays within the table; live counts are unbounded integers; the dumps, the signal handler and the memory layout of a block are not modelled. The comment promises that the table stops accepting entries near 95 percent; the code has no such limit.
- Tcl commands, configuration, routers, convergence layers other than the simulated one, Bluetooth, storage back ends, `dnd.py` and `theory.py`: not modelled, being input and output or offering only easy sums.
