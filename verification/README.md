# Smee, verified

Smee is the network-boot server of Tinkerbell: DHCP in two modes, TFTP and HTTP for iPXE binaries and scripts, a
reverse proxy that patches an ISO image while it streams through, and a syslog receiver. This project models the parts
of it that carry state, loops or a protocol, and proves what they are for. `dafny verify dfyconfig.toml` checks all of
it.

| module | models |
|---|---|
| `IsoPatch`, `IsoPatchLaws`, `IsoPatchExits` | the copy loop that patches an ISO chunk by chunk, against whole-file replacement |
| `LatencyWriter` | the flushing writer behind it: a lock, a timer, a pending flag, in every interleaving |
| `Headers`, `Query` | hop-by-hop headers and query strings in the reverse proxy |
| `SyslogMessage`, `SyslogLaws`, `SyslogFormat`, `SyslogLegacy`, `SyslogTagOnce` | the syslog parser on its fixed buffer, against RFC 5424 and the legacy form |
| `SyslogPipeline`, `SyslogCrash` | pool, reader, bounded channel and any number of parsers, in every interleaving |
| `Dhcp`, `Reservation`, `Netboot` | the boot file, the reservation reply, and the protocol between a server in either mode and its clients |
| `Traceparent` | the trace context in option 43: Go encoder, shell decoder |
| `Mac`, `ScriptUrl`, `ScriptHandOff` | the hardware address in the script's URL, from the first DHCP packet to the HTTP side |
| `Ipam` | the `ipam=` kernel argument |
| `Xff` | the client address behind trusted proxies |
| `FileBackend` | the two lookups of the file backend over an unordered table |
| `Seqs`, `Text` | bytes, hexadecimal, splitting and joining |

Code that updates things step by step is a class or a method with loops, proved against a function of its inputs or of
the old state; what the code promises is then proved of those functions. The receiver and the netboot protocol are
state machines whose runs are arbitrary sequences of steps.

What the proofs turned up:

- An ISO that is patched chunk by chunk equals the whole file with each occurrence replaced if and only if every
  occurrence lies inside one read and no read holds two of them (`IsoPatchLaws.CopyReplacesAll`). An occurrence split
  between two reads goes out unpatched, and a patch longer than the magic string overwrites what follows it.
- The syslog parser looks for the bracket that closes the PRI in a fixed range of the buffer, whatever the size of the
  datagram. It panics if and only if it finds that bracket beyond the bytes received, which takes a datagram of three
  or four bytes, "<" and digits, in a recycled buffer (`SyslogLaws.PanicExactly`). For each such datagram there is a
  run that brings the receiver down, and for no other (`SyslogCrash.PanicsExactly`).
- A message that ends after its structured data, which section 6 of RFC 5424 allows, is refused
  (`SyslogFormat.MessageRequired`).
- The proxyDHCP handler never passes its configured user class on: in proxy mode only "Tinkerbell" ends the chainload
  loop (`Netboot.ProxyIgnoresCustomClass`). A comment there announces a not-allowed boot file for clients that may
  not netboot; the code sends them nothing, and so does the model.
- A file-backend record whose key is written with dashes or dots is found by IP address, and by hardware address only
  if the table spells that address again with colons (`FileBackend.LookupsAgree`, `FileBackend.DashNotationIsLost`).
- The `ipam=` line can be read back if and only if the record holds IPv4 addresses only and no stray separators
  (`Ipam.RoundTrip`): one IPv6 address breaks the nine fields.

Two modelling decisions where code and appearance differ: the syslog reader wraps every read error before it asks whether
it is a network error, so the branch that carries on is never taken, and in the model any read error ends the reader
(internal/syslog/receiver.go:98-108); and the Raspberry Pi suboptions are the byte strings of the code, not of its comments.

## Model

| member | source | states |
|---|---|---|
| `IsoPatch.Handler.HandlerFunc` | internal/iso/iso.go:61-81 | afterwards the padding is one space for each byte of the magic string |
| `IsoPatch.Handler.Patched` | internal/iso/iso.go:96-106 | one chunk: its first occurrence blanked, then overwritten, on a copy |
| `IsoPatch.Handler.Copy` | internal/iso/iso.go:86-125 | bytes accepted, count and error are those of the chunk-by-chunk pump, for any reader and writer |
| `IsoPatch.CopyBuffer` | internal/iso/internal/reverseproxy.go:660-689 | the same pump without patching |
| `IsoPatchLaws.CopyReplacesAll` | internal/iso/iso.go:78-125 | with every write taken, the client receives the whole file with each occurrence replaced by the padded patch, if and only if each occurrence lies in one read and no read holds two |
| `IsoPatchLaws.StreamIsReplaceAll` | internal/iso/iso.go:96-106 | the same for the stream of patched chunks, for every way to cut the body into chunks; also the one case in which bad cuts do no harm, a patch that reproduces the magic string |
| `IsoPatchLaws.CopyExit` | internal/iso/iso.go:91-124 | at every exit and for any patch length: a prefix of the patched stream is accepted, the count is its length, and the error is nil exactly when end of file came with every chunk fully written |
| `IsoPatchExits.CopyError` | internal/iso/iso.go:107-123 | which error at every exit: that of the first write that fails, a short write if it only falls short, and the source's own, nil for end of file, if none does |
| `IsoPatchLaws.CopyWithoutMagic` | internal/iso/iso.go:91-124 | if no chunk holds the magic string, output, count and error are those of the plain loop |
| `IsoPatchLaws.PatchStaysInside` | internal/iso/iso.go:99-106 | no chunk is changed outside its occurrence if and only if the patch is no longer than the magic string |
| `IsoPatchLaws.SplitOccurrenceMissed` | internal/iso/iso.go:97-106 | for every magic string and every place to split it: two reads that split an occurrence go out unchanged |
| `LatencyWriter.MaxLatencyWriter.constructor` | internal/iso/internal/reverseproxy.go:627-640 | the writer starts with a flush pending and its timer running |
| `LatencyWriter.MaxLatencyWriter.Write` | internal/iso/internal/reverseproxy.go:709-727 | the write step: immediate flush for a negative latency, at most one timer otherwise |
| `LatencyWriter.MaxLatencyWriter.DelayedFlush` | internal/iso/internal/reverseproxy.go:729-737 | the callback step: flushes only if a flush is still pending |
| `LatencyWriter.MaxLatencyWriter.StopTimer` | internal/iso/internal/reverseproxy.go:739-746 | the stop step |
| `LatencyWriter.FlushIsOwed` | internal/iso/internal/reverseproxy.go:699-746 | in every interleaving before stop: unflushed bytes imply a pending flush; a flush is pending exactly when the timer runs or one callback waits for the lock, never both and never two; either is due within the latency of the oldest byte |
| `LatencyWriter.FlushesExactly` | internal/iso/internal/reverseproxy.go:709-746 | in every run the destination is flushed exactly once for each callback that finds a flush pending (and each write, for a negative latency); until such a step every byte written is kept waiting, in order |
| `LatencyWriter.FlushesApart` | internal/iso/internal/reverseproxy.go:709-737 | in every interleaving with a latency of zero or more, flushes come at least the latency apart, the first one after the start |
| `LatencyWriter.ImmediateFlushes` | internal/iso/internal/reverseproxy.go:713-716 | with a negative latency each write flushes exactly once and nothing ever waits; the only other flush is the one owed from the start |
| `LatencyWriter.NoFlushAfterStop` | internal/iso/internal/reverseproxy.go:729-746 | after stop no leftover callback flushes, in any continuation |
| `LatencyWriter.NoByteWaitsLonger` | internal/iso/internal/reverseproxy.go:709-737 | in every interleaving in which time passes neither an armed deadline nor a waiting callback, no byte waits longer than the latency |
| `LatencyWriter.WaitingBytesGoOut` | internal/iso/internal/reverseproxy.go:709-737 | from every reachable state with bytes waiting there is a continuation, without further writes, that flushes them within the latency |
| `LatencyWriter.LateWriteOwesTwo` | internal/iso/internal/reverseproxy.go:627-656 | why writes must end before stop: a write after it would leave two flushes owed |
| `SyslogMessage.Syslog.ParseMessage` | internal/syslog/message.go:139-151 | verdict (or panic) and all fields are those of the parse function on the old fields |
| `SyslogMessage.Syslog.ParsePriority` | internal/syslog/message.go:249-268 | PRI digits accumulated modulo 256 over a fixed range of the buffer; panics where the slice expression does |
| `SyslogMessage.Syslog.ParseHeader` | internal/syslog/message.go:153-167 | five space-separated fields and a timestamp, or the fields stay as they were |
| `SyslogMessage.Syslog.ParseLegacyTag` | internal/syslog/message.go:207-247 | app, bracketed process id, optional colon and blank, and the rest |
| `SyslogMessage.Syslog.ParseLegacyHeader` | internal/syslog/message.go:179-205 | stamp, tag and trims of a legacy message |
| `SyslogMessage.Syslog.ResetFields` | internal/syslog/message.go:306-313 | every parsed field is cleared, buffer, size and time are kept |
| `SyslogMessage.TagEndIsLongest` | internal/syslog/message.go:207-231 | the app name is the longest run of tag bytes |
| `SyslogLaws.PriorityValue` | internal/syslog/message.go:249-268 | a PRI is accepted exactly when it is at most three digits between brackets, and the byte stored is their decimal value modulo 256 |
| `SyslogLaws.PanicExactly` | internal/syslog/message.go:254-257 | parsing panics if and only if the closing bracket of the PRI lies beyond the bytes received |
| `SyslogLaws.StaleBytes` | internal/syslog/message.go:249-268 | the bytes left in the buffer make no difference if and only if the priority scan ends inside the datagram, and if and only if no left-over bytes make the parser panic |
| `SyslogLaws.WindowsInOrder` | internal/syslog/message.go:139-268 | on success every field that is not nil is a window of the bytes received; windows are disjoint, in header order, the message last, on both paths |
| `SyslogFormat.RoundTrip` | internal/syslog/message.go:139-177 | every message rendered in the form of section 6 of RFC 5424 parses if and only if its timestamp is one the clock accepts, and then gives back facility, severity, the time (that of receipt for "-"), every header field and every byte of MSG |
| `SyslogFormat.ParsedIsRendered` | internal/syslog/message.go:139-177 | the other way round: everything accepted on that path is the rendering of its own parsed fields |
| `SyslogFormat.ModernExactly` | internal/syslog/message.go:153-177 | what follows the version is accepted exactly when it has five fields, a good timestamp and nil structured data; the fields and the time then hold what stood there |
| `SyslogFormat.MessageRequired` | internal/syslog/message.go:139-177 | every datagram that ends after its nil structured data is refused |
| `SyslogFormat.TagConserves` | internal/syslog/message.go:207-247 | tag parsing conserves bytes: app, bracketed process id, optional colon and blank and message follow each other without a gap; there is a process id exactly if a bracket opens after the app and closes anywhere, up to the first that closes; if every byte is a tag byte nothing is taken |
| `SyslogFormat.ConservedWhole` | internal/syslog/message.go:207-247 | so these parts, end to end, are the text |
| `SyslogFormat.LegacySuffix` | internal/syslog/message.go:179-205 | after all trims the message is a suffix of what was received |
| `SyslogLegacy.LegacyExactly` | internal/syslog/message.go:179-205 | every datagram with a priority and no version is accepted: after a 15-byte stamp that the clock accepts and a blank, tag and message are those of the rest and the time is the stamp's, corrected (or that of receipt for a zero stamp); otherwise they are those of the whole body and the time is that of receipt |
| `SyslogLegacy.TagReads` | internal/syslog/message.go:207-247 | the tag said of byte strings: the text is app, bracketed process id, optional colon and blank, and message |
| `SyslogTagOnce.TaggedOnce` | internal/syslog/message.go:207-247 | there is only one way to cut a text up like that, so the tag's meaning is complete |
| `SyslogLegacy.TrimmedIs` | internal/syslog/message.go:315-329 | the severity's name and ": ", then the time prefix, then one carriage return come off the front, each exactly where it stands there |
| `SyslogPipeline.EveryRun` | internal/syslog/receiver.go:29-168 | in every run: as many parsers as configured, at least one; each object is in exactly one place, pooled objects are cleared, the channel keeps to its capacity, datagrams leave it in order of receipt and unchanged, and each one taken is in one parser's hands or logged exactly once |
| `SyslogPipeline.EverythingGetsLogged` | internal/syslog/receiver.go:87-168 | from every state of every run, without receiving anything more, every datagram received gets logged, unless a parser panics on the way |
| `SyslogPipeline.ReadErrorEndsReading` | internal/syslog/receiver.go:97-108 | after any read error nothing more is ever received |
| `SyslogPipeline.StepKeepsInv` | internal/syslog/receiver.go:87-168 | every step of reader, parsers and pool keeps the invariant behind it |
| `SyslogPipeline.OneParserInOrder` | internal/syslog/receiver.go:44-54 | with one parser, handled, in the parser, on the channel and read but not sent, end to end, is everything received, in order |
| `SyslogPipeline.NoLeaks` | internal/syslog/receiver.go:152-168 | with the real parser: each datagram whose priority scan ends inside it is logged as if it were alone, whatever its object held before, and if all are like that no parser panics |
| `SyslogCrash.PanicsExactly` | internal/syslog/receiver.go:87-168 | some run panics on a datagram if and only if the scan for its priority runs past its end |
| `SyslogCrash.Crash` | internal/syslog/receiver.go:87-168 | the run, for every such datagram: a datagram of brackets goes through, its object is recycled, and the next parse in it panics |
| `SyslogCrash.DownExactly` | internal/syslog/receiver.go:152-168 | in every run the receiver is down exactly when a parser has panicked on a datagram it took |
| `SyslogPipeline.NoOtherGuards` | internal/syslog/receiver.go:87-168 | in every state of every run each goroutine can take its next step, the reader also with an empty pool, unless the code itself waits there |
| `Dhcp.IsRaspberryPi` | internal/dhcp/dhcp.go:104-119 | true exactly for a hardware address with one of the registered prefixes |
| `Dhcp.Arch` | internal/dhcp/dhcp.go:122-152 | a Raspberry Pi's own architecture, or the first named one |
| `Dhcp.FirstNamedIsFirst` | internal/dhcp/dhcp.go:136-151 | no architecture before the one chosen has a name, and the unknown one is chosen only if none has |
| `Dhcp.BinariesByArchitecture` | internal/dhcp/dhcp.go:43-61 | which architecture numbers each binary is for, and that no other has one |
| `Dhcp.PiGetsArmBinary` | internal/dhcp/dhcp.go:104-128 | a Raspberry Pi gets the ARM binary whatever architecture it reports |
| `Dhcp.NetbootProblems` | internal/dhcp/dhcp.go:211-255 | no problem is collected exactly for a valid netboot client |
| `Reservation.BuildReply` | internal/dhcp/handler/reservation/handler.go:197-215 | the reply is the skeleton with all modifiers folded over it |
| `Reservation.Draft.SetNetboot` | internal/dhcp/handler/reservation/option.go:68-106 | the closure's in-place updates are those of one netboot modifier |
| `Reservation.LeaseReply` | internal/dhcp/handler/reservation/option.go:21-55 | the lease part of a reply, option by option: the record's value where it has one, and the client's own options otherwise |
| `Reservation.RecordOptions` | internal/dhcp/handler/reservation/option.go:21-55 | which part of the record each option carries, by option number |
| `Reservation.NetbootLeavesLease` | internal/dhcp/handler/reservation/option.go:68-106 | the netboot modifier leaves the address, the identity and every option set from the record untouched |
| `Reservation.BootHeaders` | internal/dhcp/handler/reservation/option.go:68-106 | boot file and next server of every answer: none and the server's own without a netboot part; "not allowed" and 0.0.0.0 exactly if the record does not allow netboot or the architecture has no binary; and the HTTP or TFTP address by client type otherwise |
| `Reservation.PiSuboptions` | internal/dhcp/dhcp.go:322-338 | a Raspberry Pi gets its two suboptions beside the others, and nobody else does |
| `Reservation.OfferIsAck` | internal/dhcp/handler/reservation/handler.go:73-119 | the answers to a Discover and to the otherwise identical Request differ in option 53 only |
| `Reservation.AnswerIsReservation` | internal/dhcp/handler/reservation/handler.go:73-130 | exactly Discovers and Requests of a live reservation are answered, with the client's reserved address |
| `Reservation.NoSharingExactly` | internal/dhcp/handler/reservation/handler.go:73-130 | in every run two replies give the same address exactly when they go to the same client, if and only if live reservations have distinct addresses |
| `Netboot.ProxyHandle` | internal/dhcp/handler/proxy/proxy.go:86-206 | the chain of early returns answers exactly the packets of valid, known, allowed netboot clients, with this reply |
| `Netboot.ProxyAnswersExactly` | internal/dhcp/handler/proxy/proxy.go:126-206 | which packets are answered, by option number |
| `Netboot.ProxyOptions` | internal/dhcp/handler/proxy/proxy.go:132-189 | message type, machine identifier, client class, server identifier and next server of the reply, by option number, and no address |
| `Netboot.ServedAnswer` | internal/dhcp/dhcp.go:266-300 | in either mode a served client is handed a script exactly when its class ends the loop and a script is configured, and a binary exactly when it does not and there is a server for it |
| `Netboot.ServedBinary` | internal/dhcp/dhcp.go:275-297 | a binary handed out is the one for the client's architecture, with the trace in its name if that is on, and comes the way the client can load it, under its hardware address |
| `Netboot.LeavesLoopExactly` | internal/dhcp/dhcp.go:266-300 | in any interleaving, exactly when a client's class has ended the loop and exactly when it runs the script, for every configuration |
| `Netboot.TwoExchanges` | docs/DHCP.md:19-25 | with a script and an HTTP server configured, a client is in the script after two answered exchanges, in any interleaving with other clients; after one, if its class ends the loop from the start |
| `Netboot.EveryLoadIsAnswered` | internal/dhcp/handler/reservation/option.go:68-122 | every exchange of a served client is answered |
| `Netboot.NeverBinaryAgain` | internal/dhcp/dhcp.go:271-276 | once a client's class ends the loop it keeps it for the rest of any run and is never handed a binary, whatever it sends and whatever the configuration |
| `Netboot.ClientsDoNotInterfere` | internal/dhcp/handler/reservation/handler.go:73-130 | a client fares in any interleaving as if it were alone |
| `Netboot.ProxyIgnoresCustomClass` | internal/dhcp/handler/proxy/proxy.go:188-189 | in proxy mode a configured class ends the loop only if it is Tinkerbell |
| `Traceparent.FromContext` | internal/dhcp/otel/otel.go:350-369 | version, trace id, span id and flags, end to end |
| `Traceparent.ScanLoop` | test/extract-traceparent-from-opt43.sh:29-74 | the loop ends on every text and finds what the scan function finds |
| `Traceparent.Extract` | test/extract-traceparent-from-opt43.sh:21-75 | the exported text, or the environment's own if there is no suboption 69 |
| `Traceparent.DecoderRecovers` | test/extract-traceparent-from-opt43.sh:21-75 | for any other suboptions in any order, with or without an end mark, the decoder recovers exactly what was encoded |
| `Traceparent.NoTraceparent` | test/extract-traceparent-from-opt43.sh:48-61 | without a suboption 69 the environment is left alone |
| `Traceparent.TextDetermines` | internal/dhcp/otel/otel.go:350-369 | different trace contexts have different texts |
| `Traceparent.ServedOptionDecodes` | internal/dhcp/handler/reservation/option.go:82-101 | a reservation reply carries a suboption 69 if and only if netboot is enabled and allowed, the client is a valid netboot client and its architecture has a binary; otherwise it carries none at all; and then its option 43, to a Raspberry Pi or not and in any order, decodes to the trace context of the request |
| `ScriptUrl.InjectMac` | cmd/smee/main.go:424-431 | the client's URL is a new object with the address in its path; nothing that existed is modified, the configured URL included |
| `ScriptUrl.ClientIsRecognised` | internal/ipxe/script/ipxe.go:205-213 | for every configured path that ends in auto.ipxe, the client's path is looked up by exactly its hardware address, if and only if that has 6, 8 or 20 bytes |
| `ScriptUrl.InjectedEnds` | cmd/smee/main.go:427-428 | the last two elements of a cleaned, joined path are the two elements joined on |
| `ScriptUrl.PathsTellClientsApart` | cmd/smee/main.go:424-431 | different clients are given different paths |
| `ScriptUrl.ClientPathLiesUnder` | cmd/smee/main.go:427-428 | the client's path lies in a directory of its own right under that of the configured path, and keeps its last element |
| `ScriptUrl.OtherNamesUnsupported` | internal/ipxe/script/ipxe.go:110-115 | a configured path is never looked up exactly when its last element is not auto.ipxe |
| `ScriptHandOff.ClientGetsItsOwnScript` | internal/ipxe/script/ipxe.go:108-146 | end to end, in either mode: after two answered exchanges in any interleaving a client runs a script at the configured host, and the HTTP side looks its path up by exactly that client's hardware address, if and only if that has 6, 8 or 20 bytes |
| `ScriptHandOff.ScriptsAreNotShared` | cmd/smee/main.go:424-431 | two clients of a run end in the same script only if they are the same client |
| `Mac.MacRoundTrip` | internal/ipxe/script/ipxe.go:205-213 | a printed address parses back exactly when its length is 6, 8 or 20 bytes |
| `Ipam.ParseIpam` | internal/iso/ipam.go:12-79 | the line is the nine fields joined by colons, and empty without a record |
| `Ipam.NineFields` | docs/ISO-Static-IPAM.md:11 | the line splits into nine fields, and into its own, exactly when all addresses are IPv4 and VLAN, host name and search domains hold no colon |
| `Ipam.ListReadBack` | internal/iso/ipam.go:48-76 | a list is read back exactly when no entry holds a comma and it is not one empty entry |
| `Ipam.RoundTrip` | internal/iso/ipam.go:12-79 | the whole record is recovered from its line, if and only if it is colon-free and its search domains can be read back |
| `Xff.Parse` | internal/ipxe/http/xff.go:88-118 | the backward loop with its shortcut is the walk from the right |
| `Xff.ResolvesLeftmost` | internal/ipxe/http/xff.go:106-118 | the answer is the leftmost entry reached from the right through valid and allowed ones, and "" exactly in the absence of one |
| `Xff.SingleEntry` | internal/ipxe/http/xff.go:94-101 | the shortcut for a single entry gives what the walk gives |
| `Xff.FrontIsIrrelevant` | internal/ipxe/http/xff.go:103-118 | whatever a client puts in front cannot move the answer past an entry that does not pass |
| `Xff.OnlyTrustedPeersForward` | internal/ipxe/http/xff.go:74-85 | the request's address changes only for an allowed socket peer, to a valid entry of the header, keeping the peer's port |
| `Xff.ForwardedExactly` | internal/ipxe/http/xff.go:74-85 | the request gets the resolved address with the peer's port exactly if the header is there, the peer is allowed and the header resolves; otherwise it keeps its own |
| `Xff.EntriesOfList` | internal/ipxe/http/xff.go:89-108 | the entries of a list joined by commas are its trimmed parts, in order |
| `Xff.HostPortRoundTrip` | internal/ipxe/http/xff.go:76-79 | splitting an address undoes joining it |
| `Xff.IpInMasks` | internal/ipxe/http/xff.go:144-151 | true exactly if some mask contains the address |
| `Xff.Allowed` | internal/ipxe/http/xff.go:134-141 | allowed exactly if all are, or the address parses and lies in a configured subnet |
| `FileBackend.Translate` | internal/backend/file/file.go:234-340 | the record in the server's terms, or the first error in the order of the code |
| `FileBackend.ByMacSays` | internal/backend/file/file.go:106-145 | the answer by hardware address, field by field in terms of the raw record, with the longest valid prefixes of the server lists; found exactly if address, mask and any script URL parse, and which error otherwise |
| `FileBackend.ByIpSays` | internal/backend/file/file.go:149-197 | the same by address, for the hardware address the key stands for, and a bad file for a key that does not parse |
| `FileBackend.SaysOneThing` | internal/backend/file/file.go:234-340 | a raw record leaves nothing about its answer open |
| `FileBackend.Servers` | internal/backend/file/file.go:260-268 | the loop takes servers up to the first that does not parse |
| `FileBackend.PrefixIsLongest` | internal/backend/file/file.go:260-291 | that is the longest valid prefix |
| `FileBackend.Watcher.GetByMac` | internal/backend/file/file.go:106-145 | the answer for the first key, in the given iteration order, that is the address but for case |
| `FileBackend.Watcher.GetByIP` | internal/backend/file/file.go:149-197 | the answer for the first record with the address |
| `FileBackend.Watcher.Watch` | internal/backend/file/file.go:201-231 | after any sequence of file events the in-memory copy is the last read of it, folded over the events |
| `FileBackend.LatestIsServed` | internal/backend/file/file.go:201-231 | that is the latest version of the file that could be read: failed reads, other operations and errors change nothing |
| `FileBackend.OrderIrrelevantExactly` | internal/backend/file/file.go:123-139 | a lookup answers alike for every iteration order if and only if all keys that fit have the same answer |
| `FileBackend.SameAnswerByMac` | internal/backend/file/file.go:123-139 | keys unique up to case make `GetByMac` independent of the order |
| `FileBackend.SameAnswerByIp` | internal/backend/file/file.go:166-191 | unique addresses make `GetByIP` independent of the order |
| `FileBackend.KeyIsColonForm` | internal/backend/file/file.go:123-124 | a key is taken for an address exactly when it parses to it and is in colon notation |
| `FileBackend.LookupsAgree` | internal/backend/file/file.go:106-197 | with keys unique up to case and in any two iteration orders: a record found by address is found by its hardware address with the same data, if and only if its key is in colon notation or the table spells that address again in colon notation with the same data; it is not found at all exactly when no key is the address in colon notation |
| `FileBackend.ColonTablesAgree` | internal/backend/file/file.go:106-197 | in a table all in colon notation with keys unique up to case the two lookups always agree |
| `FileBackend.DashNotationIsLost` | internal/backend/file/file.go:123-191 | for every hardware address and record: under a dashed key alone it is found by address and not by hardware address |
| `Headers.Headers.RemoveHopByHop` | internal/iso/internal/reverseproxy.go:588-603 | afterwards exactly the fixed names and those listed in any Connection value are gone, and all others are unchanged |
| `Headers.HopHeadersCanonical` | internal/iso/internal/reverseproxy.go:301-311 | the fixed names are in canonical form, so deleting them deletes them |
| `Headers.StripIsIdempotent` | internal/iso/internal/reverseproxy.go:588-603 | stripping twice is stripping once |
| `Headers.PrepareOutbound` | internal/iso/internal/reverseproxy.go:401-422 | an unprintable upgrade is refused; otherwise the headers are stripped and the two re-adds made |
| `Headers.ServeHeaders` | internal/iso/internal/reverseproxy.go:401-422 | the same with the real canonical form of header names, and the protocol to switch to spelled out |
| `Headers.OnlyReaddsLeft` | internal/iso/internal/reverseproxy.go:406-422 | the only hop-by-hop names left are Te: trailers and a matching Connection and Upgrade pair; all other headers are as they were |
| `Query.Clean` | internal/iso/internal/reverseproxy.go:832-851 | the scan returns the query itself if it is well-formed and its re-encoding otherwise |
| `Query.CleanedExactly` | internal/iso/internal/reverseproxy.go:832-863 | a query comes out unchanged if and only if it has no semicolon and every percent sign starts a two-digit escape; the result is always well-formed, and cleaning is idempotent |
| `Query.EncodeWellFormed` | internal/iso/internal/reverseproxy.go:833-836 | what is re-encoded is well-formed, whatever it was parsed from |
| `Query.DecodeUndoesEncode` | internal/iso/internal/reverseproxy.go:833-836 | decoding what was re-encoded gives the pairs back, in order |
| `Query.Request.Rewrite` | internal/iso/internal/reverseproxy.go:276-286 | scheme and host are the target's, and paths and queries are joined |
| `Query.PathsJoinedByOneSlash` | internal/iso/internal/reverseproxy.go:216-248 | however the two ends look, the path that goes on the wire is joined by exactly one slash |
| `Query.JoinWellFormed` | internal/iso/internal/reverseproxy.go:281-285 | a joined query is well-formed if and only if both parts are |
| `Query.JoinedPairs` | internal/iso/internal/reverseproxy.go:281-285 | a joined query holds the target's pairs first, then the request's |
| `Query.ForwardedQuery` | internal/iso/internal/reverseproxy.go:276-286 | the query sent to the target is well-formed if and only if the target's own query is |

## Left out

- Sockets, HTTP serving, transport, protocol upgrades, file watching, YAML and JSON decoding: reads, writes, packets and tables are arbitrary inputs.
- IsoPatch.Handler.Copy: a source that never ends is not modelled, since its answers are a finite sequence; the count does not wrap at 64 bits.
- LatencyWriter: the lock is modelled by making each method one step; a write after stop, which the copy loop never makes, appears in one lemma only.
- Go's time package: timestamp parsing, the correction of legacy times and the formatted time prefix are parameters of the syslog model.
- SyslogPipeline: receiver shutdown (closing the channel on cancellation) is not modelled, and the log entry is the parsed fields, not the structured map made of them.
- The wire format of DHCP: a packet is a record with its options by code, the skeleton reply carries the client identifier and relay options over, and option 43 is its suboptions; boot file names are values that say what they point to, not URL texts.
- Reservation.Draft.SetNetboot: the script URL depends on the client's hardware address only, as both closures of cmd/smee/main.go:421-431 do; a record that names its own script goes first.
- The destination of a DHCP reply (relay or peer) and the proxy's server name header: nothing to prove about them.
- Netboot: clients that do not run what they are handed, and iPXE binaries that do not report the class Tinkerbell, are not modelled.
- Xff: address parsing and trimming are parameters, as are the address masks; building the masks from configuration is not modelled.
- FileBackend: address and URL parsing are parameters; comparison up to case is ASCII, which is exact for hardware addresses.
- Headers.PrepareOutbound: finding a token in header values is a parameter; removal of the forwarding headers and the rewrite hook itself are not modelled.
- Query.Request.Rewrite: the encoding of a path is a parameter, with the one law that an encoded path starts with a slash only if the path does.
- The Kubernetes backend, iPXE script templates, flags, metrics, tracing set-up and logging: plumbing, or resting on libraries that are not part of this model.
