# EMW driver verification

Dafny model and proofs for the parts of the EMW Wi-Fi driver and its demo applications that hold real state, branching
or arithmetic. Check everything with `dafny verify dfyconfig.toml`.

**Address text** (`Words`, `Text`, `Ipv4Parser`, `Ipv4Coverage`, `Ipv4Printer`, `Ipv6Parser`, `Ipv6Spelling`,
`Ipv6Coverage`, `Ipv6Tails`, `Ipv6Printer`, `Ipv6RoundTrip`, `Alphabet`). The two parsers and two printers are methods
with the source's loops over strings, buffers and the address object, each proved equal to a function on texts. What
those functions mean is proved beside them: IPv4 spellings all agree and are all that is accepted, both printers round
trip, and the IPv6 parser's verdict is known on every text of colons and hexadecimal characters. Words are bounded
naturals and every wrap-around, shift and `|` is written out.

**Command driver** (`RequestIds`, `MessageQueue`, `DriverModel`, `DriverSafety`, `DriverRuns`, `DriverExamples`,
`Driver`, `DriverLaws`). The build without operating system: `request` posts a command and waits on a semaphore, the
waiting loop polls the packet queue, and the queue's waiting loop runs one SPI transaction per turn. `DriverModel` is
that nesting as a step machine whose clock, interrupts, hardware and device answer arbitrarily; the device may delay,
drop, duplicate and reorder answers and send events as it likes. `DriverSafety` proves one invariant over all steps
and `DriverRuns` what follows for every run. `Driver` is the class with the source's static fields and nested calls;
each method is proved to make a step or a run of turns of the machine; `DriverLaws` says what the steps do in bytes,
lengths and signals. The device is assumed to answer only identifiers it was sent, less than 2^32 - 1 requests ago.

**Console** (`CommandMatch`, `LineEditor`, `History`, `ConsoleHistory`, `Console`, `Arguments`). In-place editing of
the 80-byte array refines a line with a cursor; the five slots refine a most-recently-used list and own their strings;
a line is cut in place into the arguments of a command.

**DHCP server** (`DhcpOptions`, `DhcpBindings`, `DhcpServer`, `DhcpLaws`). The option scanner, the fixed-layout reply
(sections 3.3, 3.5, 9.2, 9.6 and 9.7 of RFC 2132), and the client table over whole runs of messages. The class
`DhcpServer` takes a packet as received and gives the bytes sent.

Where the code is not what its comments or names suggest, the model follows the code:

- The colon counter stops at the first letter (`drivers/emw/EmwAddress.cpp:188`), so A::1 is printed and then
  rejected; a mapped address such as ::ffff:1.2.3.4 is rejected too, and the two "::" of 1::2::A:3 are accepted.
  Before a dotted address six groups are needed, or two or five with one "::" among them.
- At block 7 the IPv6 printer reads one word past the array (`drivers/emw/EmwAddress.cpp:342`). It is an arbitrary
  extra word here; if it is zero a last zero block may print as an empty group, and every theorem holds for it.
- `IsHexaDigit` accepts g to z, worth 16 to 35, an octal IPv4 part may have the digits 8 and 9, and the early parts of
  an IPv4 address are not range-checked: 256.0.0.0 is 0.0.0.0.
- The 4-digit limit of an IPv6 group is not checked: longer groups count modulo 2^32, and only their low 16 bits
  survive in the high half of a word.
- A Wi-Fi status event with an unknown status stops the driver for ever (`drivers/emw/EmwApiCore.cpp:1010-1014`); no
  other step modelled here does.
- When the device announces more bytes than the pending command has, the transfer reads past the end of the command
  (`drivers/emw/EmwIoSpi.cpp:141-158`). When the pending command is longer than a receive buffer and the device
  announces anything, the transfer writes past the end of the buffer; only certificate commands of the bypass build
  are that long.
- A character inserted before the end of a line of 79 characters fills the array, which is then printed without a
  terminator before the line is cut (`core/src/Console.cpp:450-470`).
- The place in the history moves on into empty slots, so after surplus presses of the up arrow the down arrow may show
  the same command again.
- `findOption` does not compare the announced length of the option it finds with the bytes that are left.
- The history counter stops at 4 although there are five slots.
- The loop that looks for a free DHCP address changes nothing once the lowest address is taken
  (`applications/lwip/AppDhcpService.cpp:278-290`). `DhcpBindings.SearchEnds` gives the exact condition under which it
  ends, and `DhcpBindings.OneClientIsServed` the consequence: the server serves one client, and the first DISCOVER of
  a second one never returns.
- A client identifier of no bytes matches no table entry, not even its own
  (`applications/lwip/AppDhcpService.cpp:121-124`).

## Model

| member | source | states |
|---|---|---|
| `Words.SwapBytesTwice` | drivers/emw/EmwAddress.cpp:411-417 | changing the byte order twice gives the word back |
| `Words.SwapBytesReverses` | drivers/emw/EmwAddress.cpp:411-417 | the lowest byte becomes the highest, and so on |
| `Alphabet.UpperDigit` | drivers/emw/EmwAddress.cpp:424-446 | the k-th character of 0123456789ABCDEF is worth k for the parsers, and is what the printer writes for k |
| `Alphabet.LowerDigit` | drivers/emw/EmwAddress.cpp:424-434 | the k-th character of 0123456789abcdef is worth k |
| `Alphabet.OtherLetter` | drivers/emw/EmwAddress.cpp:424-434 | the k-th letter of g to z is worth 16 + k |
| `Alphabet.OnlyTheseDigits` | drivers/emw/EmwAddress.cpp:424-429 | no other character passes for a digit |
| `Alphabet.Marks` | drivers/emw/EmwAddress.cpp:59-69 | the separators, the prefix letter and the six white-space characters, one by one |
| `Alphabet.EndMarks` | drivers/emw/EmwAddress.cpp:110-112 | what may follow an accepted dotted text |
| `Alphabet.DottedCaseIsIgnored` | drivers/emw/EmwAddress.cpp:30-155 | two dotted texts that differ only in the case of letters A to F are read as the same address, or both rejected |
| `Alphabet.ColonCaseIsIgnored` | drivers/emw/EmwAddress.cpp:157-272 | the same for two colon texts, with a dotted address at the end or without |
| `Ipv4Parser.CollectDigits` | drivers/emw/EmwAddress.cpp:71-86 | stops exactly where the run of digits of the base stops, with the wrapped 32-bit value of the run |
| `Ipv4Parser.CollectNumber` | drivers/emw/EmwAddress.cpp:57-86 | chooses the base by the C prefixes and reads one number |
| `Ipv4Parser.AsciiToNetwork` | drivers/emw/EmwAddress.cpp:30-155 | for every terminated string: 1 and the network-order address, or 0 and the caller's word untouched |
| `Ipv4Parser.ReadDigitsEvaluates` | drivers/emw/EmwAddress.cpp:71-86 | the wrapping accumulation ends with the exact value of the digit string modulo 2^32, in each base and for any length |
| `Ipv4Parser.PartsAreRead` | drivers/emw/EmwAddress.cpp:87-108 | dotted spelled parts are split and read one by one, up to four |
| `Ipv4Parser.CombineIsPositional` | drivers/emw/EmwAddress.cpp:110-150 | accepted exactly when the last part fits its form; or-ing the shifted parts gives the exact positional value of the a, a.b, a.b.c or a.b.c.d form if and only if no early part loses a bit: none leaves the word and no two parts share one |
| `Ipv4Parser.SpellingIsIrrelevant` | drivers/emw/EmwAddress.cpp:30-155 | texts of one to four parts that spell the same numbers, in decimal, octal or hexadecimal with any leading zeros, are read as the same address or all rejected, whatever follows the white space after them |
| `Ipv4Parser.MeaningOfParts` | drivers/emw/EmwAddress.cpp:30-155 | a text of one to four spelled parts is accepted if and only if its last part fits, with no range check on the early parts; the address is the positional value if and only if they lose no bit, and parts up to 255 never do |
| `Ipv4Parser.LargePartIsAccepted` | drivers/emw/EmwAddress.cpp:137-144 | 256.0.0.0 is accepted, as 0.0.0.0 |
| `Ipv4Coverage.AcceptedIsSpelled` | drivers/emw/EmwAddress.cpp:30-155 | conversely every accepted text is one to four spelled parts, hexadecimal with the letters g to z included, whose last part fits, then the end or white space and anything after it |
| `Ipv4Printer.LowDigitsFirst` | drivers/emw/EmwAddress.cpp:286-295 | the division loop yields the decimal digits of the byte, lowest first |
| `Ipv4Printer.PutByte` | drivers/emw/EmwAddress.cpp:285-303 | one byte appended in decimal as far as the buffer has room |
| `Ipv4Printer.NetworkToAscii` | drivers/emw/EmwAddress.cpp:274-316 | for every non-empty buffer: the longest prefix of the dotted text that fits, then a terminator, and nothing beyond the size given is written |
| `Ipv4Printer.DecimalIsASpelling` | drivers/emw/EmwAddress.cpp:288-303 | what is printed for a number is a spelling of that number for the parser (0 is read as octal) |
| `Ipv4Printer.DottedInMemoryOrder` | drivers/emw/EmwAddress.cpp:278-308 | the four bytes are printed in the order they have in memory, with dots between |
| `Ipv4Printer.RoundTrip` | drivers/emw/EmwAddress.cpp:30-155 | parsing the printed text of any 32-bit address is accepted and gives the address |
| `Ipv4Printer.FitsInSixteen` | drivers/emw/EmwAddress.cpp:274-316 | 16 bytes always hold the full text and its terminator |
| `Ipv6Parser.CountZeroBlocks` | drivers/emw/EmwAddress.cpp:166-191 | the counting pass rejects exactly the texts with a dot out of place, else gives 8 less the colons it saw, wrapped, and whether it met a dot |
| `Ipv6Parser.StoreBlock` | drivers/emw/EmwAddress.cpp:198-204 | a closed block lands in its half of its word; the word index stays block index / 2 |
| `Ipv6Parser.FillZeros` | drivers/emw/EmwAddress.cpp:227-241 | the zero blocks of a "::" are written while they fit, and rejection is exactly when they do not |
| `Ipv6Parser.FixByteOrder` | drivers/emw/EmwAddress.cpp:262-266 | every word ends in network order |
| `Ipv6Parser.ScanGivesFourWords` | drivers/emw/EmwAddress.cpp:192-271 | an accepted scan produces exactly four words: no word of an earlier address can survive |
| `Ipv6Parser.AsciiToNetwork` | drivers/emw/EmwAddress.cpp:157-272 | total on every terminated string; accepted exactly when the text has a meaning, and then all four words and the zone are overwritten, whatever they held |
| `Ipv6Spelling.CountMissesColons` | drivers/emw/EmwAddress.cpp:171-191 | the counting pass sees all colons if and only if no letter stands before the last one |
| `Ipv6Spelling.ScanToEnd` | drivers/emw/EmwAddress.cpp:196-271 | groups up to the end are accepted exactly when they complete eight blocks |
| `Ipv6Spelling.ScanToGap` | drivers/emw/EmwAddress.cpp:197-243 | groups up to a "::" are stored, then the missing zero blocks, if all of them fit |
| `Ipv6Spelling.MeaningOfText` | drivers/emw/EmwAddress.cpp:157-272 | the parser's verdict on every text of groups and "::": without "::" it needs eight groups; with any number of "::", as many colons before the first letter as groups, and the zeros all go to the first |
| `Ipv6Spelling.MeaningWithOneGap` | drivers/emw/EmwAddress.cpp:157-272 | with one "::" and room for it: accepted if and only if no letter stands before the last colon, and then the zeros fill the gap to eight blocks |
| `Ipv6Coverage.TripleIsRejected` | drivers/emw/EmwAddress.cpp:221-225 | three colons in a row are always rejected |
| `Ipv6Coverage.PartsOf` | drivers/emw/EmwAddress.cpp:157-272 | every other text of colons and hexadecimal characters is one `MeaningOfText` decides, so the verdict is known for all of them |
| `Ipv6Coverage.TwoGapsAreAccepted` | drivers/emw/EmwAddress.cpp:171-243 | 1::2::A:3 is accepted, with all the zeros in the first "::" |
| `Ipv6Tails.TailIsIgnored` | drivers/emw/EmwAddress.cpp:166-254 | the first foreign character ends the text and what follows it has no influence |
| `Ipv6Tails.MappedWithLetterIsRejected` | drivers/emw/EmwAddress.cpp:171-191 | a letter before the last colon also rejects a "::" text that a dotted tail follows, such as ::ffff:a.b.c.d |
| `Ipv6Tails.EmbeddedMeaning` | drivers/emw/EmwAddress.cpp:171-215 | groups of decimal digits and a dotted tail without "::": accepted if and only if there are six groups and the tail is an IPv4 address, which is then the last word |
| `Ipv6Tails.EmbeddedWithGap` | drivers/emw/EmwAddress.cpp:171-243 | with one "::" among the groups: accepted if and only if there are two or five groups in all, one of them after the "::", and the tail is an IPv4 address; so ::0:1.2.3.4 is and ::1.2.3.4 is not |
| `Ipv6Tails.ManyGapsAreRejected` | drivers/emw/EmwAddress.cpp:171-243 | with two or more "::" before a dotted tail such a text is always rejected |
| `Ipv6Printer.HexNibbles` | drivers/emw/EmwAddress.cpp:369-400 | the four conditional digits make the hexadecimal numeral without leading zeros |
| `Ipv6Printer.PutNibble` | drivers/emw/EmwAddress.cpp:369-396 | a leading zero digit is skipped, any other digit is written, and failure is exactly a full buffer |
| `Ipv6Printer.PutBlock` | drivers/emw/EmwAddress.cpp:369-400 | a block is appended whole, or the buffer is too small for it |
| `Ipv6Printer.NetworkToAscii` | drivers/emw/EmwAddress.cpp:318-409 | null exactly when the text and its terminator do not fit; otherwise the whole text is in the buffer; never a byte beyond the size given, whatever word is read past the array |
| `Ipv6RoundTrip.PrintedShape` | drivers/emw/EmwAddress.cpp:327-401 | the flag-driven loop prints all eight groups, or the groups on both sides of the first run of two or more zero blocks |
| `Ipv6RoundTrip.PrintedDoubleColon` | drivers/emw/EmwAddress.cpp:333-362 | "::" occurs exactly when two neighbouring blocks (the word beyond included) are zero, only once, and at the first such run |
| `Ipv6RoundTrip.GapValues` | drivers/emw/EmwAddress.cpp:226-241 | the zeros the parser puts back restore the eight blocks, also at either edge |
| `Ipv6RoundTrip.PackBlocks` | drivers/emw/EmwAddress.cpp:328-332 | cutting the words into blocks and packing them again is the identity, byte order included |
| `Ipv6RoundTrip.BlockBytes` | drivers/emw/EmwAddress.cpp:328-346 | block b is made of bytes 2b and 2b + 1 of the address in memory; the word past the array counts by its first two bytes |
| `Ipv6RoundTrip.ParsedBytes` | drivers/emw/EmwAddress.cpp:255-266 | and the parser puts eight blocks into memory that way |
| `Ipv6RoundTrip.HexIsShortest` | drivers/emw/EmwAddress.cpp:369-400 | a block is printed in the digits 0 to 9 and A to F, without a leading zero |
| `Ipv6RoundTrip.EndsInColon` | drivers/emw/EmwAddress.cpp:333-362 | the text ends in a colon exactly when the last block is zero and either belongs to the run left out or stands alone before two zero bytes past the array |
| `Ipv6RoundTrip.RoundTrip` | drivers/emw/EmwAddress.cpp:157-409 | for every address and every word past the array: the printed text parses to the same four words if it has no "::" or no letter before its last colon, and is rejected if not |
| `Ipv6RoundTrip.FitsInForty` | drivers/emw/EmwAddress.cpp:318-409 | 40 bytes always hold the text and its terminator |
| `Ipv6RoundTrip.RejectedExample` | drivers/emw/EmwAddress.cpp:188-190 | A::1 is printed and then rejected by the parser |
| `RequestIds.Formula` | drivers/emw/EmwCoreIpc.cpp:53-62 | request n, from 0, has identifier (2^32 - 2 + n) mod (2^32 - 1) |
| `RequestIds.NeverReset` | drivers/emw/EmwCoreIpc.cpp:53-62 | the reset value is never issued |
| `RequestIds.Distinct` | drivers/emw/EmwCoreIpc.cpp:53-62 | within 2^32 - 1 consecutive requests no two share an identifier |
| `RequestIds.ComesRound` | drivers/emw/EmwCoreIpc.cpp:53-62 | and the bound is tight: after that many the identifier returns |
| `RequestIds.SetReqId` | drivers/emw/EmwCoreIpc.cpp:80-86 | the four header bytes are written little-endian and the rest of the buffer is untouched |
| `RequestIds.HeaderRoundTrip` | drivers/emw/EmwCoreIpc.cpp:46-86 | the identifier written is the one read; command code and parameters are unchanged |
| `DriverLaws.HeaderIsLittleEndian` | drivers/emw/EmwCoreIpc.cpp:46-72 | identifier and command code are read as little-endian bytes 0 to 3 and 4 to 5 |
| `DriverLaws.IdentifierIsLittleEndian` | drivers/emw/EmwCoreIpc.cpp:80-86 | the identifier is written as little-endian bytes 0 to 3, and nothing else of the command changes |
| `MessageQueue.RingPut` | drivers/emw/EmwOsNoOSImplementation.cpp:229-254 | writing at the write index appends to the sequence the ring stands for |
| `MessageQueue.RingPop` | drivers/emw/EmwOsNoOSImplementation.cpp:256-285 | advancing the read index removes the head of that sequence |
| `MessageQueue.CreateMessageQueue` | drivers/emw/EmwOsNoOSImplementation.cpp:185-218 | a queue is made exactly for capacities from 1 to 15, and it is empty |
| `MessageQueue.MessageQueue.Put` | drivers/emw/EmwOsNoOSImplementation.cpp:229-254 | a put succeeds at once exactly when the queue is not full, and appends; otherwise it ends only by the clock and changes nothing |
| `MessageQueue.MessageQueue.Pop` | drivers/emw/EmwOsNoOSImplementation.cpp:256-285 | the message taken is the oldest one put |
| `DriverSafety.InitialInv` | drivers/emw/EmwCoreIpc.cpp:101-128 | the invariant holds after initialisation |
| `DriverSafety.BeginKeepsInv` | drivers/emw/EmwCoreIpc.cpp:138-175 | starting a request keeps it, and neither assertion of the request path fails |
| `DriverSafety.SpiStepKeepsInv` | drivers/emw/EmwIoSpi.cpp:87-190 | a transaction keeps it for every device header, length and failure, and never puts into a full queue |
| `DriverSafety.ReceivedIsOk` | drivers/emw/EmwIoSpi.cpp:133-180 | a packet accepted has a positive size within its buffer and is what the device sent |
| `DriverSafety.MatchIsOwn` | drivers/emw/EmwCoreIpc.cpp:300 | while a request is unanswered, a packet with the pending identifier answers that very request, and conversely |
| `DriverSafety.QuietMatchesNothing` | drivers/emw/EmwCoreIpc.cpp:300-329 | with nothing pending no answer matches, because the reset value is never issued |
| `DriverSafety.HandleKeepsInv` | drivers/emw/EmwCoreIpc.cpp:248-330 | handling any packet, matching or not, keeps it; the packet's buffer leaves by exactly one way |
| `DriverSafety.StepKeepsInv` | drivers/emw/EmwCoreIpc.cpp:130-330 | every step of the driver, whatever clock, hardware and device answer, keeps the whole invariant |
| `DriverRuns.RunKeepsInv` | drivers/emw/EmwCoreIpc.cpp:130-330 | the invariant holds in every state of every run |
| `DriverRuns.Quiescence` | drivers/emw/EmwCoreIpc.cpp:154-187 | between requests the pending identifier is the reset value, the response semaphore is 0 and the queue is empty; no run fails an assertion of the request path or blocks on a full queue |
| `DriverRuns.HangsExactly` | drivers/emw/EmwApiCore.cpp:976-1015 | among the steps modelled, a run has stopped for ever if and only if it has handled a Wi-Fi status event of at least the header size whose status is not one of the five known |
| `DriverExamples.HangingRun` | drivers/emw/EmwApiCore.cpp:1010-1014 | four steps from the start: one such packet stops a background poll |
| `DriverRuns.StrayAnswerIsDropped` | drivers/emw/EmwCoreIpc.cpp:300-329 | a late, duplicate or unasked-for answer changes nothing but freeing its own buffer |
| `DriverRuns.StepBrings` | drivers/emw/EmwCoreHci.cpp:64-109 | a queued or handled packet was there before or was delivered by the transaction of that very step |
| `DriverRuns.CallGoesOn` | drivers/emw/EmwCoreIpc.cpp:176-187 | during a call, every packet seen was delivered after the call began |
| `DriverRuns.RequestReturnsOwnAnswer` | drivers/emw/EmwCoreIpc.cpp:130-201 | success means the response buffer holds the leading bytes of an answer to that very request, delivered during the call, cut to the smaller of both sizes; after a timeout the buffer and size are as passed in |
| `DriverModel.FilledIsCopied` | drivers/emw/EmwCoreIpc.cpp:301-311 | an answer of b bytes puts byte 6 + k of the packet at place k of the response, for min(response size, b - 6) bytes, and leaves the rest of the buffer alone |
| `DriverLaws.RequestIsPosted` | drivers/emw/EmwCoreIpc.cpp:144-175 | a request of an allowed size leaves the command with the next identifier in the mailbox, raises the SPI semaphore once, or twice to wake a power-saving device, and waits for that identifier |
| `DriverLaws.TooLargeIsRefused` | drivers/emw/EmwCoreIpc.cpp:144-198 | a command of any other size changes nothing but, for its code, the power-save flag |
| `DriverLaws.CallSetsPowerSave` | drivers/emw/EmwCoreIpc.cpp:192-197 | when a call ends, answered or not, the power-save flag is on after command 0x0109, off after 0x010A and as before after any other |
| `DriverLaws.StepMovesThePacket` | drivers/emw/EmwIoSpi.cpp:107-182 | a woken step queues exactly the announced packet if and only if a side has something to say, the device is ready twice, its header is sound, the length is positive and fits, and the transfer went well, a command sent beside it or not; the mailbox is emptied if and only if the data phase is reached |
| `DriverLaws.StepSleeps` | drivers/emw/EmwIoSpi.cpp:94-107 | a step nobody wakes only makes sure that it holds a buffer |
| `DriverLaws.PacketIsHandled` | drivers/emw/EmwCoreIpc.cpp:248-330 | a packet is handed on if and only if it is a frame for a listening network interface in bypass mode, and freed otherwise; it completes the request if and only if it is no event and carries the pending identifier; nothing else changes |
| `DriverLaws.FailsOnlyByTheClock` | drivers/emw/EmwCoreIpc.cpp:176-183 | an accepted call fails only in a turn in which the clock has run out and no answer is in |
| `DriverLaws.PromptAnswerIsReturned` | drivers/emw/EmwCoreIpc.cpp:130-201 | if the clock runs on for two turns and the device transmits the answer in the second, three more turns end the call with success and that answer in the response buffer, whatever the clock says in them |
| `DriverRuns.TransferBounds` | drivers/emw/EmwIoSpi.cpp:130-182 | receive side: the receive-only branch has a buffer and a positive length, what is announced fits the held buffer, and the whole transfer fits it exactly when the pending command does, so always in the build on the module; send side: the transfer stays inside the pending command if and only if the device announced no more bytes than it has |
| `DriverExamples.CommandIsOverread` | drivers/emw/EmwIoSpi.cpp:141-158 | a reachable state in which the device makes a command of six bytes be sent as a hundred |
| `DriverExamples.BufferIsOverrun` | drivers/emw/EmwIoSpi.cpp:141-158 | a reachable state of the bypass build in which a certificate command of 2000 bytes makes the transfer clock as many bytes into a receive buffer of 1542 |
| `DriverRuns.EachBufferInOnePlace` | drivers/emw/EmwApiCore.cpp:909-1043 | in every state of every run each buffer ever allocated is in exactly one of: freed, handed to the network, queued, held by the SPI step, being handled |
| `DriverRuns.BuffersAddUp` | drivers/emw/EmwIoSpi.cpp:94-180 | allocated = freed + handed on + queued + held + being handled |
| `Driver.Driver.constructor` | drivers/emw/EmwCoreIpc.cpp:101-128 | the fields start as the initial state of the step machine |
| `Driver.Driver.GetNewReqId` | drivers/emw/EmwCoreIpc.cpp:53-62 | the static counter moves to the next identifier, skipping the reset value |
| `Driver.Driver.SendImp` | drivers/emw/EmwIoSpi.cpp:192-215 | the mailbox is overwritten and the SPI semaphore raised, or nothing happens and 0 is returned for a length over the limit |
| `Driver.Driver.CopyAnswer` | drivers/emw/EmwCoreIpc.cpp:301-311 | min(response size, payload - 6) bytes are copied, the rest of the caller's buffer and its size field follow |
| `Driver.Driver.ProcessResponse` | drivers/emw/EmwCoreIpc.cpp:294-330 | does exactly the machine's answer step on the fields |
| `Driver.Driver.ProcessEvent` | drivers/emw/EmwApiCore.cpp:909-1043 | does exactly the machine's event step: freed, or handed to the network interface in bypass mode |
| `Driver.Driver.HandlePacket` | drivers/emw/EmwCoreIpc.cpp:248-282 | one packet taken from the queue is dispatched as the machine does |
| `Driver.Driver.Input` | drivers/emw/EmwCoreHci.cpp:64-89 | the buffer changes hands to the queue; the put never has to wait |
| `Driver.Driver.ExchangeData` | drivers/emw/EmwIoSpi.cpp:107-190 | a woken transaction is the machine's transaction, for every answer of the hardware |
| `Driver.Driver.ProcessPollingData` | drivers/emw/EmwIoSpi.cpp:87-190 | one call of the polling hook is one SPI step of the machine |
| `Driver.Driver.Receive` | drivers/emw/EmwOsNoOSImplementation.cpp:256-285 | the loop on the packet queue, with the SPI step as its hook, is a run of turns of the machine |
| `Driver.Driver.PollOnce` | drivers/emw/EmwCoreIpc.cpp:248-282 | poll is a run of turns, and returns with the invariant intact |
| `Driver.Driver.CheckSemaphore` | drivers/emw/EmwOsNoOSImplementation.cpp:66-100 | one check of the wait: when the semaphore is up the response buffer already holds the request's own answer, when the clock has run out it is untouched |
| `Driver.Driver.TakeResponseSemaphore` | drivers/emw/EmwOsNoOSImplementation.cpp:66-100 | the wait with poll nested in it is a run of turns and ends with the own answer in place or nothing written |
| `Driver.Driver.Post` | drivers/emw/EmwCoreIpc.cpp:138-175 | the first half of a request is the machine's request step, and writes only the identifier into the command |
| `Driver.CallEnds` | drivers/emw/EmwOsNoOSImplementation.cpp:66-100 | from any state inside a request three turns in a row with the clock run out end the call, unless the driver hangs |
| `Driver.DeliveredAnswerIsReturned` | drivers/emw/EmwCoreIpc.cpp:248-330 | once the answer to the request is in the packet queue the call returns it with success in three turns, whatever the clock says: a delivered answer is never lost to a timeout |
| `Driver.Driver.RequestCommand` | drivers/emw/EmwCoreIpc.cpp:130-201 | the call refines the machine; success leaves the own answer in the response buffer, a timeout leaves it as passed, a command too large or a driver that is not usable touches nothing of the caller; it is not still waiting once the clock has run out for three turns in a row |
| `CommandMatch.ResolveMeaning` | core/src/Console.cpp:229-273 | a word resolves to itself if it is a command, else to the one command it is a proper prefix of, else to nothing |
| `CommandMatch.ExtensionsCount` | core/src/Console.cpp:241-254 | exactly one match means exactly one command in the table extends the word |
| `CommandMatch.ExtensionsInOrder` | core/src/Console.cpp:241-254 | the matches come in table order, and as often as the table has them |
| `CommandMatch.RoomForAll` | core/inc/Console.hpp:75 | a table of no more commands than slots, ten in the console, always has room for its matches |
| `CommandMatch.ListMatchingCommands` | core/src/Console.cpp:229-262 | the slots hold the matches in table order, or only the full name when it is typed, as long as no more commands can match than there are slots |
| `CommandMatch.MatchCommand` | core/src/Console.cpp:264-273 | the command found is the one the word resolves to |
| `LineEditor.PressOk` | core/src/Console.cpp:337-472 | every key keeps a line of at most 79 non-zero characters with the cursor inside it; an 80th closes the line |
| `LineEditor.TypedLine` | core/src/Console.cpp:440-472 | typing plain characters gives exactly them; the 80th closes the line and is lost |
| `LineEditor.EnterReturnsTheLine` | core/src/Console.cpp:440-473 | Enter, with either of its codes, returns the line as it is, wherever the cursor stands |
| `LineEditor.WordThenEnter` | core/src/Console.cpp:330-475 | a word of at most 79 plain characters and then Enter returns exactly that word |
| `LineEditor.FullLineIsCut` | core/src/Console.cpp:467-470 | a character that fills the array closes the line, and its first 79 characters are returned |
| `LineEditor.NoKeyIsIgnored` | core/src/Console.cpp:341-347 | the zero that stands for no key changes nothing |
| `LineEditor.InsertToggles` | core/src/Console.cpp:351-359 | the insert key changes the mode only, and twice nothing |
| `LineEditor.BackspaceTakesOut` | core/src/Console.cpp:401-413 | in either mode backspace and delete take out the character before the cursor, and do nothing at the start of the line |
| `LineEditor.BackspaceUndoes` | core/src/Console.cpp:401-413 | backspace takes back an inserted character, anywhere in the line, cursor included |
| `LineEditor.RetypeUndoesBackspace` | core/src/Console.cpp:401-466 | retyping the character erased restores line and cursor |
| `LineEditor.TypedInside` | core/src/Console.cpp:440-466 | a word typed anywhere in the line is pushed in before what follows, or in overwrite mode written over it and on past the end; nothing else of the line changes |
| `LineEditor.ArrowsComeBack` | core/src/Console.cpp:389-400 | left and right are inverse inside the line and stop at its ends |
| `LineEditor.ArrowsShowHistory` | core/src/Console.cpp:360-388 | with m commands remembered (0 to 5), after n presses of up and d of down the place counts the presses only, as far as the fifth slot and back to the first; the line shows the command in that place, or the oldest if the place is empty |
| `LineEditor.DownShowsTheLatest` | core/src/Console.cpp:373-388 | down alone on a fresh line shows the latest command |
| `LineEditor.DownMayStay` | core/src/Console.cpp:360-388 | two commands remembered, three presses of up: down leaves the older one in the line |
| `LineEditor.CompletionIsStable` | core/src/Console.cpp:414-428 | a completion is a command that extends what was typed, cut to 79 characters, and completing again changes nothing |
| `LineEditor.TabDoes` | core/src/Console.cpp:414-439 | tab replaces a word that one command extends by that command, with the cursor at its end; for a full command or several extending ones only the cursor goes to the end; an empty line or a word no command begins with is left alone |
| `History.HistoryIsMostRecent` | core/src/Console.cpp:114-149 | after any session the list is the five most recently used distinct commands in order of last use |
| `History.RecentMeaning` | core/src/Console.cpp:114-149 | recent means: exactly the commands used, ordered by the time of last use |
| `History.UseOfTake` | core/src/Console.cpp:114-149 | forgetting beyond the fifth never affects a later result |
| `ConsoleHistory.ConsoleHistory.constructor` | core/src/Console.cpp:484-498 | all slots empty, nothing allocated |
| `ConsoleHistory.ConsoleHistory.AddInHistory` | core/src/Console.cpp:114-149 | the in-place shift refines the list operation; occupied slots stay a prefix, the counter is min(entries, 4), and exactly an evicted string is deleted |
| `ConsoleHistory.ConsoleHistory.FreeHistory` | core/src/Console.cpp:166-175 | afterwards every string ever allocated has been deleted exactly once |
| `Console.Console.RecallSlot` | core/src/Console.cpp:364-371 | a history slot replaces the line, cut to 79 characters, or nothing changes for an empty slot |
| `Console.Console.CompleteLine` | core/src/Console.cpp:414-439 | a single match replaces the line, otherwise the line is kept |
| `Console.Console.TypeCharacter` | core/src/Console.cpp:440-466 | the shifting loop inserts, the store overwrites or appends, as on the abstract line |
| `Console.EraseBefore` | core/src/Console.cpp:402-412 | the memmove removes exactly the character before the cursor |
| `Console.UnterminatedExactly` | core/src/Console.cpp:443-470 | the array is left without a terminator if and only if a character was typed into a line of 79 and not over one of them; the cut to 79 comes after the line is printed |
| `Console.Console.HandleKey` | core/src/Console.cpp:348-466 | one key on the array is one key on the abstract line |
| `Console.Console.GetUserInputString` | core/src/Console.cpp:330-475 | for every key stream from a zeroed array: the array is always the abstract line followed by zeros, and the line returned is the abstract one |
| `Arguments.TokensOfWritten` | core/src/Console.cpp:500-520 | words written with any delimiters between and around them come back as those words |
| `Arguments.EveryLineIsWritten` | core/src/Console.cpp:500-520 | every line is such a writing of its own tokens, so the tokens determine the line up to the gaps |
| `Arguments.Delimiters` | core/src/Console.cpp:85 | words are separated by spaces, new lines and tabs |
| `Arguments.Tokenize` | core/src/Console.cpp:500-520 | returns the next word as a string of its own, writes nothing but one terminator over a delimiter, and leaves the remaining words |
| `Arguments.ReadArguments` | core/src/Console.cpp:85-99 | the handler gets the words up to the ninth, each intact after the later cuts, and a null after them when there are fewer |
| `DhcpOptions.FindOption` | applications/lwip/AppDhcpService.cpp:147-188 | terminates on every input and finds what the reference scan finds |
| `DhcpOptions.FirstMatch` | applications/lwip/AppDhcpService.cpp:147-188 | over any options interleaved with pads, closed by END and followed by anything: data position and length of the first option with the code, or none |
| `DhcpOptions.DataAt` | applications/lwip/AppDhcpService.cpp:147-188 | the bytes at that position are the option's data |
| `DhcpOptions.ReadItems` | applications/lwip/AppDhcpService.cpp:147-188 | so reading gives the data of the first option with the code |
| `DhcpOptions.CutIsFound` | applications/lwip/AppDhcpService.cpp:166-180 | an option whose data is cut off by the end is found with the whole length it announces |
| `DhcpOptions.OverlongIsCut` | applications/lwip/AppDhcpService.cpp:166-180 | and data beyond the end is announced for no other input: complete options without the code, then the code and a length larger than what is left |
| `DhcpOptions.SetReplyOptions` | applications/lwip/AppDhcpService.cpp:643-682 | the 32 bytes of the reply's option block, for every host, mask and kind of reply |
| `DhcpOptions.ReplyReadsBack` | applications/lwip/AppDhcpService.cpp:643-682 | the scan on the written reply recovers message type, server identifier and router, and lease time and mask exactly when it is not a NAK |
| `DhcpLaws.MostSignificantFirst` | applications/lwip/AppDhcpService.cpp:727-735 | addresses travel most significant byte first, both ways |
| `DhcpLaws.ReplyLayout` | applications/lwip/AppDhcpService.cpp:643-682 | the option block of every reply, byte for byte |
| `DhcpBindings.SearchEnds` | applications/lwip/AppDhcpService.cpp:278-290 | the search for a new client's address ends if and only if the range does not end at 255.255.255.255 and its lowest address is free or is its only one; otherwise no number of turns ends it |
| `DhcpBindings.LookedAfter` | applications/lwip/AppDhcpService.cpp:278-290 | whatever number of turns is made, the state found after the first turn decides |
| `DhcpBindings.MessageKeeps` | applications/lwip/AppDhcpService.cpp:255-373 | every message keeps clients and addresses in the table distinct, only appends, and records whatever it grants |
| `DhcpBindings.KnownClientIsServed` | applications/lwip/AppDhcpService.cpp:447-456 | a recorded client is answered from its recorded address through the whole run, whatever else arrives in between |
| `DhcpBindings.GrantIsHonoured` | applications/lwip/AppDhcpService.cpp:255-373 | after a grant every later message of that client is answered from the same address: a REQUEST selecting this server is acknowledged |
| `DhcpLaws.ClientIsAnswered` | applications/lwip/AppDhcpService.cpp:255-373 | once a client was granted an address, its DISCOVERs are offered it, its REQUESTs that select this server, or name the address as a renewal does, are acknowledged with it, its other REQUESTs are refused, and the rest is not answered, in every run |
| `DhcpLaws.NewClientIsAnswered` | applications/lwip/AppDhcpService.cpp:255-373 | a new client is offered the lowest address and recorded with it if and only if that is free, the range ends below 255.255.255.255 and fewer than five are stored; when the server is silent or hangs instead; its REQUESTs are refused |
| `DhcpLaws.KnownClientIsNotRecorded` | applications/lwip/AppDhcpService.cpp:303 | a known client is never stored again |
| `DhcpLaws.FirstClientIsServed` | applications/lwip/AppDhcpService.cpp:441-545 | from an empty table, discover, offer, request, acknowledge |
| `DhcpBindings.StickyBindings` | applications/lwip/AppDhcpService.cpp:255-373 | any two offers or acknowledgements to one client in a run carry the same address |
| `DhcpBindings.DistinctAddresses` | applications/lwip/AppDhcpService.cpp:255-373 | one address is never granted to two clients |
| `DhcpBindings.AckFollowsOffer` | applications/lwip/AppDhcpService.cpp:324-373 | to a client not in the table at the start, an address is acknowledged only after it was offered to that same client |
| `DhcpBindings.OnlyTheMinimumIsGranted` | applications/lwip/AppDhcpService.cpp:278-290 | from an empty table the lowest address of the range is the only one ever granted |
| `DhcpBindings.OneClientIsServed` | applications/lwip/AppDhcpService.cpp:278-290 | in a range of more than one address, after one client's offer, the first DISCOVER of another client, or of one identified by no bytes, is the last message the server ever hears |
| `DhcpServer.DataOfItems` | applications/lwip/AppDhcpService.cpp:441-490 | the data the server takes from a packet is that of the first option with the code |
| `DhcpServer.RequestReadsBack` | applications/lwip/AppDhcpService.cpp:390-505 | a message written as options behind a boot request's fixed part is exactly the message the server takes from the packet, whatever follows END |
| `DhcpLaws.OtherPacketsAreIgnored` | applications/lwip/AppDhcpService.cpp:392-393 | packets too short, of another kind, or without the cookie are ignored |
| `DhcpLaws.HeedsExactly` | applications/lwip/AppDhcpService.cpp:408-426 | a boot request is heeded if and only if its first message type is one of the eight and it does not bear the server's own name |
| `DhcpLaws.TakesExactly` | applications/lwip/AppDhcpService.cpp:400-505 | which client, addresses and server are taken from it, with and without options 61, 50 and 54 |
| `DhcpServer.ReplyTellsTheAnswer` | applications/lwip/AppDhcpService.cpp:305-308 | a client that reads the reply recovers the kind of answer, the address and the server |
| `DhcpLaws.ReplyAddresses` | applications/lwip/AppDhcpService.cpp:305-361 | an acknowledgement has the address in both address fields, an offer in the second, a refusal in neither |
| `DhcpServer.DhcpServer.constructor` | applications/lwip/AppDhcpService.cpp:36-55 | an empty table and the address range of the host |
| `DhcpServer.DhcpServer.FindIndex` | applications/lwip/AppDhcpService.cpp:129-145 | the first entry that passes the filter, or -1 when none does |
| `DhcpServer.DhcpServer.FindClient` | applications/lwip/AppDhcpService.cpp:112-127 | finds the address first recorded for a client identifier; the empty identifier matches no entry |
| `DhcpServer.DhcpServer.StoreInfo` | applications/lwip/AppDhcpService.cpp:711-723 | appends while there is room for five, else changes nothing |
| `DhcpServer.DhcpServer.SearchAddress` | applications/lwip/AppDhcpService.cpp:275-290 | for every number of turns allowed, the loop is over exactly when its end could be foreseen, and then with the lowest address if that is free |
| `DhcpServer.DhcpServer.HandleDiscoverMessage` | applications/lwip/AppDhcpService.cpp:255-322 | the recorded address is offered again, a new client is stored with a free one, and the table changes in no other case |
| `DhcpServer.DhcpServer.HandleRequestMessage` | applications/lwip/AppDhcpService.cpp:324-373 | ACK exactly when the client is recorded and selects this server or names its recorded address; NAK otherwise |
| `DhcpServer.DhcpServer.Receive` | applications/lwip/AppDhcpService.cpp:390-446 | which packets are ignored, and which client, addresses and server are taken from the others |
| `DhcpServer.DhcpServer.ProcessRequest` | applications/lwip/AppDhcpService.cpp:375-573 | one packet on the object's table is one message of the run model, and the bytes sent are those of its answer |

## Left out

- Ipv4Printer.NetworkToAscii: requires a buffer of at least one byte; for size 0 the source writes before the buffer.
- Ipv6Printer.NetworkToAscii: requires a buffer of at least one byte; for size 0 the source writes one byte outside it.
- Ipv6Printer.NetworkToAscii: says nothing about the bytes inside the buffer when the text does not fit; the source leaves a cut text there.
- Driver.Driver.RequestCommand: the response buffer and the command in the mailbox are values, so a caller that reuses a buffer after a timeout while the mailbox still holds its address is not modelled.
- DriverModel: the clock comparisons, the flow and transfer semaphores and the HAL calls answer arbitrarily; chip select, DMA and the 10 ms power-save delay have no effect in the model.
- DriverRuns.HangsExactly: the SPI error interrupt, which also stops the driver for ever (`drivers/emw/EmwIoSpi.cpp:234-238`), is not a step of the model.
- DriverRuns.HangsExactly: buffer allocation always succeeds in the model; when memory runs out the build on the module stops for ever in `Malloc` (`drivers/emw/EmwOsNoOSImplementation.cpp:335-338`) and never comes to the retry loop, and the bypass build retries until the pool has a buffer.
- DriverModel: interrupts come between turns of the waiting loops, as atomic semaphore releases.
- DriverModel: the FreeRTOS build, where a timeout can slip in between the comparison of the identifier and the release of the semaphore.
- DriverRuns.HangsExactly: status callbacks that never return are not modelled.
- DriverModel: status callbacks that call `request` again, initialisation counting and shutdown.
- DhcpServer.DhcpServer.HandleDiscoverMessage: requires a client identifier of at most 16 bytes; the source copies a longer one without a check.
- DhcpServer.DhcpServer.Receive: requires the option bytes the source reads to be in the receive buffer, which it leaves to the sender.
- DhcpServer.DhcpServer.ProcessRequest: both of these.
- DhcpServer.DhcpServer.ProcessRequest: the reply's copied header fields, server name and destination (`sendReply`) are not modelled.
- DhcpServer.DhcpServer.SearchAddress: the loop is cut after a number of turns given by the caller, as a method here must end; the contract holds for every such number.
- DhcpServer.DhcpServer.Receive: the message type is read as one byte, the size of the enumeration under the ARM EABI with short enumerations.
- Console.Console.GetUserInputString: escape-sequence filtering of keys, terminal output, the list printed for several matches and the FreeRTOS delay.
- ConsoleHistory.ConsoleHistory.AddInHistory: memory allocation for a string always succeeds.
- CommandMatch.ListMatchingCommands: requires that no more commands can match a word than there are slots (ten in the console); the source does not check it.
- CommandMatch.MatchCommand: the same.
- Command loop: "!n", help, history and quit, and the commands themselves.
- Sockets, TLS and the other parameter packing wrappers, the HTTP event stream, statistics counters, UART ring and lock glue.
