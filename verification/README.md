# A verified model of derusting

derusting turns 3D printers into a peer-to-peer network. Each machine takes job files over HTTP,
copies them to the others, and prints a job when it holds the job ledger, a token that the machines
pass round over lossy UDP broadcast. This project models the parts of that firmware that carry
state or a protocol, and proves what they keep over every run.

`dafny verify dfyconfig.toml` checks everything.

## The parts

| module | what it models |
|---|---|
| `Wrappers`, `Arithmetic`, `Collections`, `Uuids` | shared types and small functions |
| `Handover`, `Ring` | the rule naming the next owner, and exactly when it gives every machine its turn |
| `JobSets`, `Marlin`, `Ledgers` | one machine: its job set, its print engine, one iteration of the ledger task, a received message, a submission |
| `Dedup`, `AddressBook`, `UdpReceiver` | the UDP task: 24-entry key history, book of 32 peers, and the receive loop over both |
| `TokenProtocol`, `LateCopies` | the ledger over a network that loses, delays, reorders and repeats |
| `JobProtocol`, `Punctual`, `Rotation`, `Progress` | the ledger over a network that delivers each broadcast to everyone at once |
| `Consent` | the screen button and the ledger task racing on the ready flag |
| `Text`, `Unicode`, `Numerals`, `Requests`, `PutHeader` | bytes, UTF-8, lines, trimming, numbers, identifiers and paths; the request parser; the PUT header |
| `PutSender` | the callback-driven sender of a job file |
| `PacketBuffers`, `Receiver` | packet chains and the connection handler that stores a body |
| `Uploads` | the handler's file operations interleaved with printing |
| `Transfer` | sender and receiver together |
| `TcpAdapter` | the queue between lwIP's callbacks and `receive`, and its window accounting |
| `TimeDriver` | the 64-bit clock kept from a wrapping 32-bit tick |

Code that changes things in place is a class whose methods are proved equal to a function of the old
state; the results about runs are proved about those functions.

## Assumptions

- Ledger: both mutexes are held while an iteration looks at the ledger and sends, so an iteration is
  one step. A machine's address does not change during an iteration. Message keys and submitted
  identifiers are never reused. No machine receives its own broadcast. A machine's book is a
  parameter of each iteration; where a book may name the machine itself, the result says so. That a
  book names the other members is what their heartbeats bring about
  (`AddressBook.HeartbeatsMakeCoveringBook`).
- `JobProtocol`: fixed members, broadcasts that reach every other machine at once, books that name
  members only, and no stale ledger at a machine whose book is empty or names itself. `Punctual`
  replaces the last of these by a deadline for the owner, for books that are not empty.
- Files are byte sequences, a write stores all it is given, and opening or renaming succeeds or fails
  as a parameter says. TCP delivers the accepted bytes in order, in packets of any shape.
- lwIP offers one packet at a time to the callback and keeps a refused one. Deliveries in
  `TcpAdapter` find room in the queue. Under that assumption an attached connection never has a
  refused packet, so the retry of one while attached, and its last chance on closing, do not occur in
  the runs.
- The text forms of sizes and identifiers follow Rust's `str::parse` on a 32-bit target and the
  `uuid` crate.

## Where code and comments disagree

- `src/tasks/udp.rs:38` speaks of the last 12 keys; the history has 24 places, and so has the model.
- `src/free_rtos/time_driver.rs:72-75` warns that the narrowing of the wait can wrap. The line before
  it bounds the value by the largest 32-bit number, so it cannot: `TimeDriver.Driver.WaitForInterruptOrTimeout`.

## What turned out false, and when it holds

- The token bound fails if a copy of an old handover arrives after 24 newer messages
  (`LateCopies.ALateCopyMakesASecondOwner`). The exact balance holds without any assumption
  (`TokenProtocol.TokensAreAccountedFor`); tokens are replayed exactly by late copies that reach a
  machine without the ledger (`TokenProtocol.ReplayedIffLateCopy`), and the bound holds exactly when no
  more were replayed than destroyed (`TokenProtocol.TokensWithinCreationsIff`).
- The handover rule does not give every machine its turn in every network; across subnets it can starve
  one for ever (`Ring.AcrossSubnetsAMemberStarves`). `Ring.EveryoneGetsATurnIffRing` says exactly when it
  does, for all members and book orders, each book naming all the others and its own machine or not.
  Usually the last octets must differ and the lowest address must have the least of them, and a pair
  ending in .0 and .255, which a network wider than a /24 can hold, must not have the lower book name
  itself. If the lowest machine's book leaves itself out, that machine may instead have the greatest
  last octet, with the second lowest address having the least of the rest; a member sharing the greatest
  octet must then be listed before it by the one below. For books that all name themselves the condition
  is on the addresses alone (`Ring.SelfNamingRing`).
- A submitted job is lost if the machine announcing it is handed the ledger between its check and its
  announcement (`JobProtocol.ARaceLosesTheJob`), if the owner's set is full, if there is no ledger
  yet, or if the machine neither owns the ledger nor knows a peer. Where each broadcast reaches every
  other machine at once, nothing else loses one (`JobProtocol.NothingLostIffAllTakenUp`); over a lossy
  network a lost announcement also loses a job.
- The sender stalls without a word when, with bytes left and nothing unacknowledged, the send buffer is
  full, a write finds no memory, or nothing is staged and a read returns nothing; a write that fails
  otherwise also stops it, but is reported (`PutSender.StallsExactly` says exactly when each happens).
  A first pump that finds no room or no memory stalls for good
  (`PutSender.FirstPumpCanStallForGood`). With room, writes and reads the sender never stalls
  (`PutSender.HealthyRequestGetsAcross`).
- Jobs are not printed in the order in which they came: removal moves the newest job into the gap, ahead
  of older ones, and a job can be overtaken for ever (`Progress.AJobCanBeOvertakenForEver`). Without
  new jobs all pending ones are printed, one in each willing turn (`Progress.PendingJobsGetPrinted`).
- The reader of a connection is told of its end exactly if there is room in the queue when it comes
  (`TcpAdapter.EndIsQueuedIffRoom`). With twelve packets waiting, the end is lost
  (`TcpAdapter.AFullQueueMissesTheEnd`); each end that was queued is found
  (`TcpAdapter.ReaderFindsTheEnd`).
- An upload is answered with OK even when the rename to its final name fails; the final path is then as
  it was (`Receiver.OkayMeansStoredIfRenamed`), so the upload is not what is printed
  (`Uploads.OnlyCompleteFilesArePrinted`).
- Switching the ready button off can come too late to stop a job (`Consent.WithdrawalCanComeTooLate`).
  Once the task has seen the flag up, the engine's answer finds it up exactly if an even number of
  presses were completed in between (`Consent.StillConsentedIffEvenPresses`).
- A request whose header is cut is refused: only a first chunk that holds the whole header, with a size
  of 1 to 1,000,000, is understood. Such a transfer is then answered with OK exactly when the
  receiver's file opens and the whole request was handed over (`Transfer.TransferIsAllOrNothing`).

## Model

| member | source | states |
|---|---|---|
| Handover.PickNext | src/tasks/udp.rs:206-223 | the loop over the book with its fold variables, and the fallback, name a member of the book given by the rule below |
| Handover.LowestAddress | src/tasks/udp.rs:221 | the lowest address of a book that is not empty |
| Handover.FoldFindsClosest | src/tasks/udp.rs:206-215 | the fold finds an entry at the least positive last-octet gap, or nothing when every positive gap is 255 |
| Handover.FoldFindsFirst | src/tasks/udp.rs:206-215 | of several entries at the least gap the fold keeps the one listed first |
| Ring.NextOwnerIsCyclicSuccessor | src/tasks/udp.rs:206-223 | where the last octets differ and the lowest address has the least, the rule names the cyclic successor for every order of the book, with or without the machine itself, except in exactly one arrangement |
| Ring.RingVisitsEveryMemberOnce | src/tasks/udp.rs:206-223 | in a ring, any run of as many handovers as there are members visits every member exactly once |
| Ring.EveryoneGetsATurnIffRing | src/tasks/udp.rs:206-223 | for all members and books that name the others: everyone gets a turn in every round if and only if the octets and books meet the ring condition |
| Ring.SelfNamingRing | src/tasks/udp.rs:206-223 | for books that name their own machine: if and only if the last octets differ, the lowest address has the least, and it is not a pair ending in .0 and .255 |
| Ring.OneSubnetRing | src/tasks/udp.rs:206-223 | members sharing three octets are a ring unless they are such a pair and the lower book names itself |
| Ring.AcrossSubnetsAMemberStarves | src/tasks/udp.rs:206-223 | three machines with one last octet on three subnets: the third never owns the ledger |
| JobSets.FirstPrintable | src/tasks/udp.rs:174-181 | the first job in the set's order whose file opens, and none exactly if no file opens |
| JobSets.InsertAddsWhenThereIsRoom | src/tasks/messages.rs:29-32 | insertion adds the job behind the others exactly when fewer than eight are there, and keeps the set free of duplicates |
| JobSets.SwapRemoveTakesOneOut | src/tasks/udp.rs:187 | removal takes out that job and no other, and only the newest changes its place |
| Marlin.Printer.Print | src/marlin.rs:40-65 | a job is queued exactly when the engine is idle and takes every command, the mode command first |
| Marlin.QueuedExactly | src/marlin.rs:40-65 | a busy engine is sent nothing and a refused mode keeps the job back; otherwise the mode and then the job, as far as they are taken |
| Ledgers.TwoMachinesNeverBothClaim | src/tasks/udp.rs:146-157 | of two machines that know of each other at most one claims |
| Ledgers.ClaimedExactlyByTheLowest | src/tasks/udp.rs:144-157 | a ledger not refreshed for more than 45 seconds is claimed exactly by a machine that knows nobody or has the lowest address of a book it is in |
| Ledgers.CreatesAnEmptyLedger | src/tasks/udp.rs:125-137 | a machine without a ledger makes an empty one of its own, dated now, and tells everyone |
| Ledgers.IterationKeepsJobs | src/tasks/udp.rs:112-228 | whatever an iteration does, to whatever book, exactly the printed job leaves the ledger |
| Ledgers.PrintsTheFirstPrintable | src/tasks/udp.rs:169-187 | a job is printed if and only if it is the machine's turn, flag and engine are willing, and some job's file is there; it is the first such job |
| Ledgers.TurnEndsInBroadcast | src/tasks/udp.rs:159-227 | a turn ends with the final ledger broadcast and its owner named by the rule, or kept when nobody is known; without a turn nothing is sent |
| Ledgers.CommandsMatchPrint | src/tasks/udp.rs:183-187 | the engine is sent the mode exactly if it takes it for a job that is there, and then the job exactly if it is the one printed |
| Ledgers.MessagesAreTakenIn | src/tasks/udp.rs:66-88 | a new job joins the ledger of every machine that has room, owner or not; no message touches the observation flag |
| Ledgers.OnlyAnOwnerRecords | src/tasks/tcp.rs:256-268 | a submission is recorded by an owner with room, and leaves any other machine as it is |
| Ledgers.Node.ManageLedger | src/tasks/udp.rs:112-228 | one iteration in place: creation, claim, observation, printing and handover as the step function says, the engine's queue included; a print needs the ready flag and clears it |
| Ledgers.Node.ClaimIfStale | src/tasks/udp.rs:144-157 | the claim of a ledger not refreshed for more than 45 seconds |
| Ledgers.Node.TryPrint | src/tasks/udp.rs:169-196 | the owner offers the first printable job and removes it exactly when the engine takes it |
| Ledgers.Node.Handle | src/tasks/udp.rs:66-88 | a new job joins an existing ledger, a received ledger replaces it, and other messages change nothing |
| Ledgers.Node.Append | src/tasks/tcp.rs:246-273 | an owner records the job itself; otherwise it is to be announced unless the book is empty |
| Dedup.History.Contains | src/tasks/udp.rs:53-56 | the ring holds a key exactly if it is among the last 24 accepted |
| Dedup.History.Write | src/tasks/udp.rs:57 | writing to the ring appends to the accepted keys |
| Dedup.History.Admit | src/tasks/udp.rs:53-57 | a message is handled exactly if its key is not in the window, and is then remembered |
| Dedup.WindowStaysDistinct | src/tasks/udp.rs:39 | whatever arrives, the window never holds a key twice |
| Dedup.DroppedIffRecent | src/tasks/udp.rs:53-57 | a copy is dropped exactly when fewer than 24 keys were accepted after its last acceptance |
| Dedup.RepeatsAreHandledOnce | src/tasks/messages.rs:91-103 | the repeats of one send, arriving among fewer than 24 other messages, are handled once |
| AddressBook.Book.Hear | src/tasks/udp.rs:59-64 | hearing a peer refreshes its entry or adds one if fewer than 32 are there |
| AddressBook.Book.Retain | src/tasks/udp.rs:95-101 | the sweep is the specified filter |
| AddressBook.InsertKeepsBook | src/tasks/udp.rs:59-64 | hearing a peer changes its own entry at most, in its place; a peer with a place is entered, one without changes nothing |
| AddressBook.SweepKeepsExactlyTheRecent | src/tasks/udp.rs:99 | exactly the entries heard less than 20 seconds ago survive a sweep |
| AddressBook.BookStaysBounded | src/tasks/udp.rs:59-101 | over every timed run: at most 32 entries, different addresses, none older than 20 seconds before the last sweep |
| AddressBook.EntriesAreNeverTooOld | src/tasks/udp.rs:95-101 | with a sweep at least every P, no entry is ever 20 seconds plus P old |
| AddressBook.RecentPeerIsNotEvicted | src/tasks/udp.rs:59-101 | a peer in the book stays there for the 20 seconds after it was heard, whatever happens |
| AddressBook.SweptBookNamesExactlyTheRecent | src/tasks/udp.rs:59-101 | over every timed run from boot with at most 32 senders: after a sweep the book names a peer if and only if it was heard less than 20 seconds before |
| AddressBook.HeartbeatsMakeCoveringBook | src/tasks/udp.rs:20-101 | if the senders of the last 20 seconds are just the other members, the swept book is one the ring results assume |
| AddressBook.KnownPeerHasPlace | src/tasks/udp.rs:59-64 | refreshing a known peer succeeds even in a full book |
| UdpReceiver.Receiver.Turn | src/tasks/udp.rs:40-89 | one datagram: garbled ones and repeats change nothing; a new one updates history, book and ledger |
| TokenProtocol.IterationKeepsToken | src/tasks/udp.rs:125-227 | an iteration neither loses nor copies the token, apart from creating or claiming one |
| TokenProtocol.AcceptSettlesHandover | src/tasks/udp.rs:82-88 | a handover leaves the list of pending ones when the machine it names first processes it |
| TokenProtocol.StepKeepsBalance | src/tasks/udp.rs:53-227 | every event keeps owners + pending handovers + destroyed = created + claimed + replayed |
| TokenProtocol.TallyCountsEffects | src/tasks/udp.rs:53-227 | what the tally counts, by effects: a creation leaves a machine with its first ledger, a takeover is an iteration that changes anything although another machine's ledger is held, and only an owner's token is destroyed |
| TokenProtocol.JobsReachLedgers | src/tasks/udp.rs:66-77 | a job submitted at an owner, or announced and accepted anywhere, is in that ledger if it has room, and no ownership changes |
| TokenProtocol.TokensAreAccountedFor | src/tasks/udp.rs:53-227 | the same over every run, under loss, delay, reordering and repetition |
| TokenProtocol.ReplayedIffLateCopy | src/tasks/udp.rs:53-57 | a token is replayed in a run if and only if a forgotten copy of a processed handover reaches the machine it names while that does not own the ledger |
| TokenProtocol.TokensWithinCreationsIff | src/tasks/udp.rs:53-227 | owners and pending handovers are within creations and takeovers if and only if no more tokens were replayed than destroyed |
| TokenProtocol.TokensNeverExceedCreations | src/tasks/udp.rs:53-227 | without such late copies they are always within them, under loss, delay, reordering and other repetition |
| TokenProtocol.OneCreationMeansOneOwner | src/tasks/udp.rs:53-227 | with one creation and no takeover two machines never both own the ledger |
| LateCopies.ALateCopyMakesASecondOwner | src/tasks/udp.rs:39-57 | a run with one creation and no takeover that ends with two owners, because of one late copy |
| JobProtocol.OwnerPasses | src/tasks/udp.rs:169-227 | after a handover all machines hold one ledger, less the job just taken, and agree on the owner |
| JobProtocol.OthersDoNothing | src/tasks/udp.rs:144-199 | an iteration of any machine but the owner changes nothing |
| JobProtocol.StepKeepsInv | src/tasks/udp.rs:66-227 | every event keeps agreement on one owner and the partition of the submitted jobs |
| JobProtocol.JobsAreConserved | src/tasks/udp.rs:66-227 | at every point of every run the submitted jobs are the disjoint union of printed, pending at the owner, being announced, and lost |
| JobProtocol.NoJobIsPrintedTwice | src/tasks/udp.rs:169-196 | no identifier is printed twice, and only submitted ones are printed |
| JobProtocol.NothingLostIffAllTakenUp | src/tasks/tcp.rs:246-273 | the submitted jobs are the printed, the pending and the announced ones if and only if each submission and announcement found an owner with room, other than the announcer |
| JobProtocol.LostJobIsWiped | src/tasks/udp.rs:225 | a lost job is in no machine's ledger after the owner's next turn |
| JobProtocol.EveryoneRecordsTheAnnounced | src/tasks/udp.rs:66-77 | an announced job is in the ledger of every other machine that has one with room |
| JobProtocol.ARaceLosesTheJob | src/tasks/tcp.rs:256-272 | a run in which the submitter gains the ledger between check and announcement, and the job is lost |
| JobProtocol.FlagHasObserved | src/tasks/udp.rs:159-167 | where the flag is set there was an iteration that only observed, and unbroken ownership since |
| JobProtocol.ObserveBeforeAct | src/tasks/udp.rs:159-227 | each job taken and each handover comes after an earlier, idle iteration of that machine as owner |
| Punctual.StepStaysOnTime | src/tasks/udp.rs:144-157 | with an owner that iterates again within 11.25 seconds, no machine finds another's ledger stale |
| Punctual.PunctualRunsAreRuns | src/tasks/udp.rs:144-157 | so runs with self-naming books meet the assumption on staleness |
| Punctual.PunctualJobsAreConserved | src/tasks/udp.rs:66-227 | job conservation when books may name their own machine |
| Rotation.OwnerWalks | src/tasks/udp.rs:198-227 | after any run of the protocol the owner is as far along the ring as there were handovers |
| Rotation.EveryMemberGetsItsTurn | src/tasks/udp.rs:198-227 | on a ring, one handover less than there are members is enough for every member to have owned the ledger |
| Progress.WillingTurnsPrint | src/tasks/udp.rs:159-227 | over every run: a pending job stays pending or is printed, and at least as many jobs are printed as there were willing turns or pending jobs |
| Progress.PendingJobsGetPrinted | src/tasks/udp.rs:159-227 | with nothing new coming in, as many willing turns as pending jobs print them all |
| Progress.AJobCanBeOvertakenForEver | src/tasks/udp.rs:174-187 | with a new job for each one printed, an older job is passed over in every round, however many |
| Consent.JobsNeverExceedConsents | src/tasks/udp.rs:170-187 | in every interleaving with the button, jobs taken never exceed the times the flag was turned on |
| Consent.EachJobHasItsOwnConsent | assets/screen_home.cpp:235-238 | each job taken has a press turning the flag on since the job before it |
| Consent.StillConsentedIffEvenPresses | assets/screen_home.cpp:235-238 | after the task has seen the flag up, it is still up at the engine's answer if and only if an even number of presses were completed in between |
| Consent.WithdrawalCanComeTooLate | assets/screen_home.cpp:235-238 | an interleaving in which a job is taken although the flag is off again |
| Numerals.SizeRoundTrip | src/tasks/tcp.rs:233 | a written size is read back, for every 32-bit size |
| Numerals.DecimalDigits | src/lwip/put.rs:193-195 | the written size is its decimal digits, with none to spare |
| Numerals.ParseUsizeIsExact | src/tasks/tcp.rs:233 | a text is read as a number if and only if it is that 32-bit number, perhaps with leading zeros and one plus sign |
| Numerals.UuidRoundTrip | src/tasks/tcp.rs:237 | a written identifier is read back (RFC 9562, section 4) |
| Numerals.UuidTextIsExact | src/fs.rs:457-466 | an identifier is written as its digits in small letters, in groups of 8, 4, 4, 4 and 12 |
| Numerals.ParseUuidIsExact | src/tasks/tcp.rs:237 | a text is read as an identifier if and only if it is one of its four forms, in letters of any case |
| Numerals.PathsAreDistinct | src/fs.rs:457-466 | paths of different jobs, or of the two stages of one job, differ, and fit 64 bytes |
| Numerals.PathShowsJobAndStage | src/fs.rs:457-466 | a path holds its job's identifier, and its ending tells whether the file is complete |
| Unicode.Utf8IsExact | src/tasks/tcp.rs:169-174 | exactly the byte strings that encode Unicode characters are text (RFC 3629, section 3) |
| Unicode.TrimIsExact | src/tasks/tcp.rs:229-230 | trimming gives the one text without White_Space characters at its ends that the input holds between such characters |
| Text.LinesAreExact | src/tasks/tcp.rs:224 | the lines of a text are exactly those it can be put together from with LF or CR LF endings |
| Text.EqIgnoreCaseIsExact | src/tasks/tcp.rs:232-238 | a header name matches if and only if it has the same bytes, up to the case of letters |
| Requests.SplitIsExact | src/tasks/tcp.rs:160-176 | splitting succeeds with given parts exactly if they are text separated by the first CRLF and the first blank line after it |
| Requests.StartLineIsExact | src/tasks/tcp.rs:179-198 | exactly GET and PUT of the root are accepted, and exactly other verbs are answered with 405 |
| Requests.FieldIsExact | src/tasks/tcp.rs:225-230 | a header line is split at its first colon, with both sides trimmed, and skipped exactly if it has none |
| Requests.CheckPutHeader | src/tasks/tcp.rs:217-242 | the loop that updates one record computes the fold over the header lines |
| Requests.LastLineCounts | src/tasks/tcp.rs:224-239 | size and identifier come from the last line with that key, in any case of letters |
| Requests.GcodeIffDeclared | src/tasks/tcp.rs:234-235 | the content type is recognised exactly if some line declares it |
| Requests.HeaderIsExact | src/tasks/tcp.rs:217-242 | what is read from a header is exactly what its lines say of size, identifier and content type |
| PutHeader.HeaderFits | src/lwip/put.rs:193-199 | the header fits 256 bytes for every 32-bit size |
| PutHeader.HeaderRoundTrip | src/lwip/put.rs:193-200 | the receiver recovers PUT, identifier, size, content type and the bytes behind the header |
| PutHeader.TruncatedHeaderIsRejected | src/tasks/tcp.rs:160-176 | any proper prefix of the header is refused |
| PutSender.PutRequest.ShiftDown | src/lwip/put.rs:124-126 | the staged bytes not handed over move to the front |
| PutSender.PutRequest.PumpOnce | src/lwip/put.rs:81-131 | one pump in place: top up, offer what fits, keep everything on error; the 16-bit length loses nothing |
| PutSender.PutRequest.Connected | src/lwip/put.rs:182-214 | the header is staged ahead of the file and pumped |
| PutSender.PutRequest.Sent | src/lwip/put.rs:219-234 | an acknowledgement pumps again, and only a real error is signalled |
| PutSender.StreamIsKept | src/lwip/put.rs:81-131 | after any callbacks, accepted, staged and unread bytes together are still header and file |
| PutSender.SentIsPrefixOfRequest | src/lwip/put.rs:182-234 | TCP is only given a prefix of the request, and all of it exactly when nothing is left |
| PutSender.PumpIsGreedy | src/lwip/put.rs:81-131 | a pump reads until the buffer is full, the file used up or the read short, and hands over all that is staged or all there is room for |
| PutSender.FailsExactly | src/lwip/put.rs:98-122 | an error is reported if and only if bytes were offered and the write failed other than for want of memory |
| PutSender.StallsExactly | src/lwip/put.rs:98-122 | exactly when a pump leaves bytes over with nothing in flight, in silence (no room, no memory, nothing to offer) or with an error reported (a failed write) |
| PutSender.FirstPumpCanStallForGood | src/lwip/put.rs:182-214 | a first pump that finds a full send buffer or no memory stalls, reports nothing, and no acknowledgement can follow |
| PutSender.HealthyPumpProgresses | src/lwip/put.rs:83-130 | with room, reads and writes, a pump never stalls and strictly shrinks what is left |
| PutSender.HealthyRunFinishes | src/lwip/put.rs:182-234 | as many such callbacks as there are bytes hand the whole request over |
| PutSender.HealthyFlightNeverDeadlocks | src/lwip/put.rs:219-234 | with the pump called only by acknowledgements of bytes in flight, there is always one to come until all is handed over, and each takes the request further |
| PutSender.HealthyRequestGetsAcross | src/lwip/put.rs:182-234 | so from a healthy first pump on, the request gets across whatever is acknowledged and when |
| PacketBuffers.PacketBufferIterator.Next | src/lwip/packet_buffer.rs:126-141 | the iterator yields the chunks of a chain in order, each once |
| Receiver.AbsorbChain | src/tasks/tcp.rs:107-116 | a chain is written up to the outstanding length, which falls by what was written |
| Receiver.ReceiveFirstChain | src/tasks/tcp.rs:100-116 | the body bytes in the header's chunk and the rest of its chain |
| Receiver.ReceiveRest | src/tasks/tcp.rs:118-137 | later packets until the length is used up; closing early deletes the partial file |
| Receiver.ReceiveBody | src/tasks/tcp.rs:98-137 | however the stream is cut, the file is its first Content-Length bytes, or nothing if it is shorter |
| Receiver.UnderwayContinues | src/tasks/tcp.rs:101-103 | each write keeps the counter equal to Content-Length minus bytes written, and the file a prefix of the stream |
| Receiver.OkayMeansStoredIfRenamed | src/tasks/tcp.rs:139-143 | OK is answered exactly if the whole body arrived; the final path then holds it if the rename worked, and is as it was if not |
| Receiver.UploadIsAnswered | src/tasks/tcp.rs:92-153 | an upload is announced if and only if it is answered with OK and came without an identifier; when it is refused or gets no answer; and no file but its own two changes |
| Receiver.UploadIsExact | src/tasks/tcp.rs:46-90 | a first chunk is taken for an upload if and only if it is a PUT of the root whose header declares G-code and a size from 1 to 1,000,000 |
| Receiver.OtherDemandsAreExact | src/tasks/tcp.rs:46-70 | the page is for GET of the root, exactly other verbs are not allowed, and all else is malformed |
| Receiver.AnnouncedIffNewUpload | src/tasks/tcp.rs:84-153 | over a whole connection: a job is announced if and only if an upload is answered with OK and its header gives no identifier; refusals change no file |
| Receiver.HandleUpload | src/tasks/tcp.rs:84-153 | an upload: open, receive, rename, reply, and announce it only if it came without an identifier |
| Receiver.HandleConnection | src/tasks/tcp.rs:33-156 | a whole connection: the reply, the files and the announcement depend only on the first chunk and the concatenated rest |
| Uploads.OnlyCompleteFilesArePrinted | src/tasks/udp.rs:174-187 | in every interleaving, a printed file holds the first Content-Length body bytes of one complete upload of that job that was renamed |
| Uploads.CutOffUploadsLeaveNoJobFile | src/tasks/tcp.rs:121-126 | a job none of whose uploads was completed and renamed has no job file |
| Uploads.JobFileIffFinished | src/tasks/tcp.rs:139-143 | a job has a job file if and only if one of its uploads was completed and renamed |
| Uploads.FinishedUploadIsWhatPrints | src/tasks/tcp.rs:139-143 | once renamed, an upload is what a print of its job reads |
| Uploads.CutOffCleansUp | src/tasks/tcp.rs:121-126 | cutting an upload off removes its partial file and leaves every job file as it was |
| Uploads.UploadStepsAreTheHandler | src/tasks/tcp.rs:84-144 | the interleaved file operations of one upload add up to what the handler does |
| Transfer.TransferIsAllOrNothing | src/lwip/put.rs:81-131 | for every file, callback sequence and cutting of the stream: a request is understood exactly when the first chunk holds the whole header and the size is 1 to 1,000,000; it is answered with OK exactly when the file opens and the whole request was handed over, and then the sender's bytes are stored under the same identifier, at the final path if the rename works; otherwise no complete file changes |
| TcpAdapter.TcpConnection.AttachCallbacks | src/lwip/tcp.rs:198-224 | attaching takes in the packet refused while holding |
| TcpAdapter.TcpConnection.OnReceive | src/lwip/tcp.rs:283-321 | a packet is queued if there is room, and otherwise reported as out of memory with the queue as it was |
| TcpAdapter.TcpConnection.OnClosed | src/lwip/tcp.rs:302-308 | the end of the stream is queued if there is room, and ignored while holding |
| TcpAdapter.TcpConnection.OnError | src/lwip/tcp.rs:329-338 | a failed connection is marked dead and the reader is told |
| TcpAdapter.EndIsQueuedIffRoom | src/lwip/tcp.rs:302-338 | a close or failure puts an end mark behind what is queued if and only if there is room, and only a failure ends the connection |
| TcpAdapter.EndsAreConserved | src/lwip/tcp.rs:228-338 | over every run: the marks in the queue are the ends heard of less those the reader has taken |
| TcpAdapter.ReaderFindsTheEnd | src/lwip/tcp.rs:228-338 | after an end that was heard of, a reader that has had every packet finds the mark next |
| TcpAdapter.AFullQueueMissesTheEnd | src/lwip/tcp.rs:302-308 | a run in which twelve packets wait and the close of the peer leaves no mark |
| TcpAdapter.TcpConnection.FinishReceiving | src/lwip/tcp.rs:228-246 | a packet is acknowledged only while the connection lives, and returned either way |
| TcpAdapter.TcpConnection.Drop | src/lwip/tcp.rs:350-387 | dropping drains the queue and acknowledges all of it |
| TcpAdapter.ConnectionIsFaithful | src/lwip/tcp.rs:127-387 | over every run: arrival order with none lost, and delivered = acknowledged + queued + being received |
| TcpAdapter.CloseTakesTheRefused | src/lwip/tcp.rs:356-370 | closing any live link takes in a refused packet, pays back all that is queued, and drops the callbacks |
| TcpAdapter.ClosePaysBackTheWindow | src/lwip/tcp.rs:356-378 | nothing delivered is unacknowledged when a live connection is closed |
| TcpAdapter.DeadConnectionIsLeftAlone | src/lwip/tcp.rs:228-378 | once a connection has failed or been closed, no run acknowledges anything on it |
| TimeDriver.Driver.Now | src/free_rtos/time_driver.rs:24-41 | one reading of the clock in place |
| TimeDriver.Driver.WaitForInterruptOrTimeout | src/free_rtos/time_driver.rs:56-78 | the wait is the time to the next expiry, bounded to 0 and the largest 32-bit number, and the narrowing loses nothing |
| TimeDriver.ClockLagsByMissedWraps | src/free_rtos/time_driver.rs:24-41 | over every run the clock never decreases, never passes the true total, and lags by exactly the wraps not seen |
| TimeDriver.ClockIsExactIffFrequent | src/free_rtos/time_driver.rs:24-41 | from boot it is exact if and only if each reading comes less than 2^32 ticks after the one before |

## Left out

- lwIP, FatFs, Marlin, FreeRTOS and the HAL: they are environment steps or parameters with the
  assumptions above.
- Pointers, pinning, interrupts, allocation, task creation and the panic handler: no functional core.
- Postcard encoding, UUIDv7 generation, logging, response texts, the home screen apart from its ready
  button, `clean_usb` and the build scripts.
- The number and spacing of repeats in `send` (`src/tasks/messages.rs:91-103`): the asynchronous model
  allows any number of copies at any time.
- The full-queue branch of `_recv` (`src/lwip/tcp.rs:314-319`), which frees a packet and reports it
  refused: deliveries are modelled with room in the queue.
- A reset, or a close by the peer, while the holding callback is in place: the error callback is not
  registered then, and the model's close event does nothing because the holding callback ignores it.
- Recovery after two creations or a crashed owner, late joiners and reboots: takeovers are counted in
  the token balance, and no claim is made that the ring recovers.
- At-most-once printing under loss and reordering: a late announcement can bring a printed job back,
  so it is claimed only where broadcasts reach everyone at once.
- `distribute_file` and its channel: the transfer is proved for one file and one receiver.
- Requests without any header line: the split needs a blank line after the first CRLF's end, so such
  requests are refused unless their body holds one; full conformance to RFC 9112 is not claimed.
- Receiver.HandleConnection: assumes whole writes; a short write by the file system is ignored by the
  code and would leave a gap in the file.
- AddressBook.Book.Hear: the order of the library map's entries is kept, but its removal order is not
  modelled, since the code never removes a single entry.
