# Verified model of the game metaserver

The metaserver is a UDP service that keeps a list of game servers. A server registers in three
steps: it sends a keepalive, gets a random handshake value back, and returns that value in a shake.
Clients do the same on their side and then fetch the list page by page. A reaper, run from an alarm,
drops whatever has not been refreshed for one interval. This project models that service, its packet
format and the two C programs that talk to it, and proves what holds over whole runs.

## How it is built

- `Wire`, `Codec`: 8-, 16- and 32-bit two's complement integers, network byte order, `htonl()` and
  `ntohl()` on either kind of host, and the byte form of every kind of field.
- `NetMessage`, `Messages`: the message classes over a 570-byte buffer with a packing and an
  unpacking cursor. A message class holds its base part in a field instead of inheriting it.
- `MessageRoundTrip`: whole messages of any fields that fit, packed and unpacked by these methods.
- `Registry`: what the handlers do, on values. The registry has two halves, servers and clients. A
  half has an active list, a pending list and two peaks; `Next` is one step of it, and `IsRun` says
  which states follow from which actions. Clock readings and random values are part of the actions.
  A reap pass reads the clock once per entry it checks, so each list of a pass has its own sequence
  of readings, of which the pass uses as many as the list has entries.
- `Lists`, `Listing`, `Ageing`, `Promises`, `Ledger`: what holds of every run of one half. `RunExists`
  shows that any sequence of actions has exactly one run.
- `Histories`: both halves together. `HalfIsRun` shows that each half of any history is a run, with
  the same indices, so every theorem on runs holds of servers and of clients.
- `Paging`, `PagingWitnesses`: list requests as a protocol between the changing list and the client's
  loop, and the runs in which it goes wrong.
- `Dispatch`, `MetaserverProcess`: from bytes to events, and the metaserver as a class whose methods
  update its fields. Each handler is proved to make exactly one `Step`, the dispatch loop to make
  exactly the steps that its input calls for, and `Serve` connects the object to a history.
- `TestPrograms`, `TwoParty`, `Exchange`: the test server and the test client, the client's loop wired
  to the metaserver object, and the registration exchange from end to end in bytes.

A normal build has an interval of 930 seconds and 139 addresses in a page, a debug build 7 and 5;
`Build` selects one, and every result holds for both.

## What turned out

- The comment in `src/metaserver.cpp:765-768` is right about servers that register between two page
  requests: no request runs off the list, and nothing is missed or repeated
  (`GrowingListIsInRange`, `SparedSessionIsComplete`). It is silent on removals. They can make the
  client miss a server that was listed all the time: `MissedIffOvertaken` says exactly when, and
  `RemovalHidesServer` is a run in which it happens. They cannot make it report such a server twice
  (`NoDuplicateReports`). A server is reported twice exactly when it was reported, left the list and
  came back to a place that a later page covers (`RepeatedIffRelisted`); `RelistingRepeatsServer` is a
  run in which that happens. `WhatTheClientHas` says all this of bytes in any history.
- Removals can also leave the client's offset behind the end of the list, where the source's iterator
  runs off it: exactly when more servers leave between two requests than were still to be fetched
  (`InRangeIff`), as in the run of `RemovalsLeaveOffsetBehind`.
- An entry can be two intervals old when a datagram is handled, 1860 seconds in a normal build, because
  an entry that just passes one check is next checked one interval later. The bound is reached by a
  run whose reap passes are as far apart as the alarm makes them (`StalenessTight`).
- The peak update in `ReapList` never has any effect.
- A peer stays listed as long as some accepted shake of it is at most one interval old whenever a reap
  pass ends (`KeptAliveStaysListed`); a silent peer disappears (`SilentPeerIsGone`).
- A pending list is always in order of age. An active list is, until an accepted shake refreshes a peer
  that stands before one last heard of earlier (`ActiveSortedIff`); `ActiveNotSorted` is a run in which
  that happens.
- Even of a pending list a reap pass need not remove a prefix (`AdvancingReapNotPrefix`). It removes a
  prefix exactly when it finds no entry fresh that stands before one it finds stale
  (`ReapTakesPrefixIff`); in a list in order of age that takes the clock to advance during the pass by
  more than the two entries are apart (`OutrunNeedsTime`). `ReapTakesPrefixForesight` says from the
  timestamps alone when no clock between the start and the end of the pass can cause it.
- An address is packed as a number of the host, although its bytes are in network order already. It
  arrives unchanged exactly between hosts of one byte order, palindromes aside (`AddressArrives`).
- `Pack()` of the server shake, the client shake and the list request never marks the message as packed.
  For the server shake it is shown that asking for the buffer and then for its length packs the message
  twice (`ServerShakePacksTwice`). The metaserver itself sends no such message.

## Model

| member | source | states |
|---|---|---|
| Wire.ConversionsInvert | src/listresponsemsg.cpp:57-76 | a value that passes through a signed variable of the same width and back is unchanged, for 8, 16 and 32 bits |
| Wire.ConversionsCongruent | src/netmsg.cpp:124-130 | a conversion changes a value by a multiple of its width only, and leaves a signed 32-bit value in range alone |
| Wire.WordBytes32 | src/netmsg.cpp:134-140 | the first byte of a travelling 32-bit word counts 2^24, then 2^16, 2^8 and 1, in writing and in reading |
| Wire.WordBytes16 | src/netmsg.cpp:165-171 | the same for 16 bits |
| Wire.HostLayout | TestServer/dgclibig.c:95-112 | in memory a word stands most significant byte first on a big-endian host and least significant first on a little-endian one |
| Wire.StoreIsNetworkOrder32 | src/netmsg.cpp:134-140 | on either host byte order, the memory of htonl(x) holds x most significant byte first |
| Wire.LoadIsNetworkOrder32 | src/netmsg.cpp:243-250 | on either host byte order, ntohl() of loaded bytes is their network-order value |
| Wire.StoreIsNetworkOrder16 | src/netmsg.cpp:165-171 | the same for htons() |
| Wire.LoadIsNetworkOrder16 | src/netmsg.cpp:275-282 | the same for ntohs() |
| Codec.FieldRoundTrip | src/netmsg.cpp:98-282 | the byte form of any field, anywhere in a buffer, decodes to its value, signed and negative values included, and ends where the next field starts |
| Codec.RoundTrip | src/netmsg.cpp:98-282 | the same of any sequence of fields: decoding the kinds in order gives the fields back, ending where the encoding ended |
| Codec.FieldBytes | src/netmsg.cpp:98-171 | the bytes of every kind of field: 1, 2 or 4 of them, its number modulo their width, most significant first; for a string its length in 4 bytes and then its characters |
| NetMessage.NetMsg.constructor | src/netmsg.cpp:32-39 | a new message has a zeroed buffer and both cursors at 0 |
| NetMessage.ZeroPadBytes | src/netmsg.cpp:32-39 | a message buffer has 570 bytes, and what a datagram does not fill of it is 0 |
| NetMessage.NetMsg.FromMessage | src/netmsg.cpp:43-54 | the dispatcher's parser takes the type from the first word of the datagram, whatever follows |
| NetMessage.NetMsg.Good | src/netmsg.cpp:71-76 | true exactly for the types 1 to 9 |
| NetMessage.NetMsg.PackType | src/netmsg.cpp:98-104 | appends the type as a network-order word and touches nothing behind it |
| NetMessage.NetMsg.PackChar | src/netmsg.cpp:108-112 | appends the field's byte form, nothing else changes |
| NetMessage.NetMsg.PackUChar | src/netmsg.cpp:116-120 | appends the field's byte form, nothing else changes |
| NetMessage.NetMsg.PackInt | src/netmsg.cpp:124-130 | appends the two's complement bits as a network-order word |
| NetMessage.NetMsg.PackUInt | src/netmsg.cpp:134-140 | appends the value as a network-order word |
| NetMessage.NetMsg.PackString | src/netmsg.cpp:144-151 | appends the length word and the characters |
| NetMessage.NetMsg.PackShort | src/netmsg.cpp:155-161 | appends the field's byte form, nothing else changes |
| NetMessage.NetMsg.PackUShort | src/netmsg.cpp:165-171 | appends the field's byte form, nothing else changes |
| NetMessage.NetMsg.UnpackType | src/netmsg.cpp:199-208 | yields the field at the cursor and moves the cursor behind it |
| NetMessage.NetMsg.UnpackChar | src/netmsg.cpp:212-218 | yields the field at the cursor and moves the cursor behind it |
| NetMessage.NetMsg.UnpackUChar | src/netmsg.cpp:222-228 | yields the field at the cursor and moves the cursor behind it |
| NetMessage.NetMsg.UnpackInt | src/netmsg.cpp:232-239 | yields the signed field at the cursor and moves the cursor behind it |
| NetMessage.NetMsg.UnpackUInt | src/netmsg.cpp:243-250 | yields the field at the cursor and moves the cursor behind it |
| NetMessage.NetMsg.UnpackString | src/netmsg.cpp:254-260 | yields the characters announced by the length word, read as a signed int and used as unsigned |
| NetMessage.NetMsg.UnpackShort | src/netmsg.cpp:264-271 | yields the signed field at the cursor and moves the cursor behind it |
| NetMessage.NetMsg.UnpackUShort | src/netmsg.cpp:275-282 | yields the field at the cursor and moves the cursor behind it |
| NetMessage.NetMsg.VerifyType | src/netmsg.cpp:316-320 | unpacks the type at the cursor and says whether it is the expected one |
| NetMessage.NetMsg.Pack | src/netmsg.cpp:324-328 | packs the type only and marks the message as packed |
| NetMessage.NetMsg.Unpack | src/netmsg.cpp:332-335 | sets the type from the word at the cursor |
| MessageRoundTrip.PackField | src/netmsg.cpp:98-171 | the pack call for any kind of field appends its byte form |
| MessageRoundTrip.UnpackField | src/netmsg.cpp:199-282 | the unpack call for any kind yields the field at the cursor and moves the cursor behind it |
| MessageRoundTrip.PackAll | src/netmsg.cpp:98-171 | pack calls in a row append the byte forms of their fields, in order |
| MessageRoundTrip.UnpackAll | src/netmsg.cpp:199-282 | unpack calls in a row yield the fields that start at the cursor |
| MessageRoundTrip.PackAndUnpack | src/netmsg.cpp:98-282 | on either host, any fields that fit in 570 bytes, packed into a new message, unpack from it to the same fields, and `mPlace` ends at `mLength` |
| MessageRoundTrip.SendAndReceive | src/netmsg.cpp:98-282 | the same from one host to another of any byte order, through a datagram of 4 to 569 bytes |
| Messages.TypeBytes | src/protocol_instructions.h:39-52 | the four bytes with which each type of message starts |
| Messages.TwoWordBytes | src/servershakemsg.cpp:44-48 | a two-word message is the bytes of its type and the four bytes of its value, most significant first |
| Messages.HandshakeReplyBytes | src/handshakemsg.cpp:44-49 | the handshake reply is the bytes 0 0 0 3 and the four bytes of the value |
| Messages.HandshakeMsg.FromMessage | src/handshakemsg.cpp:30-56 | a datagram of this type yields its second word as a signed value |
| Messages.HandshakeMsg.Pack | src/handshakemsg.cpp:44-49 | appends the two words of a handshake message and marks it as packed |
| Messages.HandshakeMsg.GetPackedBuffer | src/netmsg.cpp:80-85 | packs only if not yet packed, so that both getters together pack once |
| Messages.HandshakeMsg.GetPackedBufferLength | src/netmsg.cpp:89-94 | packs only if not yet packed and returns the length of what is packed |
| Messages.HandshakeMsg.constructor | src/handshakemsg.hh:47-51 | an unpacked message of this type with the given value |
| Messages.ServerShakeMsg.constructor | src/servershakemsg.hh:50-54 | an unpacked message of this type with the given value, as unsigned |
| Messages.ServerShakeMsg.FromMessage | src/servershakemsg.cpp:30-55 | the subclass parser sees the same type word as the dispatcher, and the value is the word at bytes 4 to 7 of the zero-padded datagram |
| Messages.ServerShakeMsg.Pack | src/servershakemsg.cpp:44-48 | appends the two words and does not mark the message as packed |
| Messages.ServerShakeMsg.GetPackedBuffer | src/netmsg.cpp:80-85 | packs once more, every time, because the message is never marked as packed |
| Messages.ServerShakeMsg.GetPackedBufferLength | src/netmsg.cpp:89-94 | packs once more, every time, and returns the grown length |
| Messages.ServerShakePacksTwice | src/servershakemsg.cpp:44-48 | calling both getters yields the message twice over |
| Messages.ClientShakeMsg.FromMessage | src/clientshakemsg.cpp:29-56 | as for the server shake, with a signed value |
| Messages.ClientShakeMsg.constructor | src/clientshakemsg.hh:50-54 | an unpacked message of this type with the given value |
| Messages.ClientShakeMsg.Pack | src/clientshakemsg.cpp:45-49 | appends the two words and does not mark the message as packed |
| Messages.TerminateMsg.FromMessage | src/terminatemsg.cpp:30-40 | the subclass parser sees the same type word as the dispatcher |
| Messages.ListRequestMsg.FromMessage | src/listrequestmsg.cpp:30-55 | as for the shakes, with a signed offset |
| Messages.ListRequestMsg.constructor | src/listrequestmsg.hh:50-54 | an unpacked message of this type with the given offset |
| Messages.ListRequestMsg.Pack | src/listrequestmsg.cpp:44-48 | appends the two words and does not mark the message as packed |
| Messages.PageMax | src/listresponsemsg.hh:59-69 | the largest number of addresses that fits behind three words in 570 bytes; a full page takes at most 568 |
| Messages.ListResponseMsg.constructor | src/listresponsemsg.hh:59-69 | an empty page with total 0 and the capacity of the build |
| Messages.ListResponseMsg.AddServer | src/listresponsemsg.cpp:44-53 | appends the address, or refuses and changes nothing exactly when the page is full |
| Messages.ListResponseMsg.Pack | src/listresponsemsg.cpp:57-66 | appends type, total, count and every address in list order, 12 + 4k bytes, behind whatever was packed before, and marks the message as packed |
| Messages.ListResponseMsg.GetPackedBuffer | src/netmsg.cpp:80-85 | packs only if not yet packed, so that both getters together pack once |
| Messages.ListResponseMsg.GetPackedBufferLength | src/netmsg.cpp:89-94 | packs only if not yet packed and returns the length of what is packed |
| Messages.ListResponseMsg.FromMessage | src/listresponsemsg.cpp:30-76 | reads total, count and exactly that many addresses |
| Messages.ListResponseWords | src/listresponsemsg.cpp:57-76 | the packed bytes say back the total, the count and every address |
| Messages.ListResponseExchange | src/listresponsemsg.cpp:30-76 | the class parses what the class packs, through its signed address list |
| Registry.FirstByHandshake | src/metaserver.cpp:421-433 | the first entry with the value, or the end if there is none |
| Registry.FirstByAddress | src/metaserver.cpp:437-449 | the first entry with the address, or the end if there is none |
| Registry.CheckInSeconds | src/metaserver.hh:48-52 | an entry passes a check exactly up to 930 seconds after its time in a normal build, up to 7 in a debug build |
| Lists.ReapEqualsFilter | src/metaserver.cpp:493-529 | a reap pass leaves an order-preserving sublist: entries too old at its start are lost, entries young enough at its end are kept, the others are decided by their own clock reading |
| Lists.LookupErase | src/metaserver.cpp:725-734 | with distinct addresses, erasing one match unlists the address and moves no other entry back |
| Listing.AddressesDistinct | src/metaserver.cpp:612-641 | in every reachable state no address is listed twice |
| Listing.LookupNext | src/metaserver.cpp:464-753 | one step seen from one address: an accepted shake from it lists it under its time, a termination from it or a late check of its entry unlists it, nothing else touches it |
| Listing.ListedIffHistory | src/metaserver.cpp:464-655 | an address is listed under timestamp t exactly when its last accepted shake came at t and since then neither a termination came from it nor a reap check of its entry happened after t plus the interval |
| Listing.ListedIffInSeconds | src/metaserver.cpp:500 | the same with 930 seconds for a normal build and 7 for a debug build |
| Listing.TableRefines | src/metaserver.cpp:437-530 | every step refines a step of a finite map from address to timestamp: accepted shake is an update, termination a removal, reap pass a filter |
| Listing.PositionNeverGrows | src/metaserver.cpp:757-798 | while an address stays listed its position never grows |
| Listing.Growth | src/metaserver.cpp:765-768 | while nobody is taken off the list, its addresses only grow at the end |
| Ageing.PeaksExact | src/metaserver.cpp:544-576 | each peak counter is the largest size its list has had over the whole run |
| Ageing.ReapNeverRaisesPeaks | src/metaserver.cpp:493-494 | the peak update of a reap pass changes nothing |
| Ageing.PendingSorted | src/metaserver.cpp:544-545 | pending lists are always sorted by timestamp, and nothing in them is newer than the last event |
| Ageing.OldestIsSpent | src/metaserver.cpp:602-611 | an accepted shake erases the oldest pending handshake with its value |
| Ageing.ReapTakesPrefixIff | src/metaserver.cpp:495-529 | a pass removes exactly a prefix if and only if no entry found fresh stands before one found stale, and then it leaves the rest of the list |
| Ageing.ReapTakesPrefixForesight | src/metaserver.cpp:495-529 | said before the pass: for every clock that runs between start and end the pass removes a prefix, if and only if no entry young enough at the start stands before one that may be too old at the end |
| Ageing.OutrunNeedsTime | src/metaserver.cpp:498-500 | in a list in order of age that takes the clock to advance between the two checks by more than the two timestamps differ |
| Ageing.SortedReapTakesPrefix | src/metaserver.cpp:495-529 | a pass at one clock reading over a sorted list removes exactly a prefix |
| Ageing.AdvancingReapNotPrefix | src/metaserver.cpp:498-500 | a run of two keepalives in one second and one reap pass, during which the clock advances by a second, that keeps the first handshake and removes the second |
| Ageing.ActiveSortedNext | src/metaserver.cpp:612-647 | one step: an active list in order of age stays in order exactly unless an accepted shake refreshes a peer that stands before one last heard of earlier |
| Ageing.ActiveSortedIff | src/metaserver.cpp:612-647 | over any run: the active list is in order of age at all times if and only if no such refresh has happened |
| Ageing.ActiveNotSorted | src/metaserver.cpp:641-647 | a run that joins, joins and refreshes, whose last action is such a refresh |
| Ageing.StalenessBound | src/metaserver.cpp:453-530 | when an event is handled at most d seconds after a reap pass started, no entry is older than the interval plus d |
| Ageing.StalenessTight | src/metaserver.cpp:321-331 | for every d a run whose reap passes are no closer than the alarm lets them be reaches that age; with d of at least one interval every action of it is within d |
| Promises.KeptAliveStaysListed | src/metaserver.cpp:500 | a peer whose accepted shakes keep up with the reap passes, and that does not terminate, stays listed |
| Promises.KeptAliveInSeconds | src/metaserver.hh:48-52 | the same with 930 seconds for a normal build and 7 for a debug build |
| Promises.SilentPeerIsGone | src/metaserver.cpp:500 | a peer without an accepted shake since t is off the list once the interval and the spacing of the reap passes are over |
| Ledger.HandshakeLedger | src/metaserver.cpp:421-611 | the values issued are, as multisets, those pending, those spent by accepted shakes and those reaped, repeated random values included |
| Ledger.NoForgedShake | src/metaserver.cpp:602-611 | no value is accepted more often than it was issued |
| Ledger.ListingLedger | src/metaserver.cpp:612-647 | accepted shakes are new listings plus refreshes, and new listings are still listed, terminated or reaped |
| Histories.HalfIsRun | src/metaserver.cpp:453-753 | each half of any history is a run of its own |
| Histories.OtherHalfUntouched | src/metaserver.cpp:339-394 | datagrams of the client side leave all of the server half as it is, those of the server side all of the client half, and list requests and ignored datagrams both |
| Histories.UntouchedThroughout | src/metaserver.cpp:339-394 | over any stretch of a history without keepalives, shakes or terminations of its side and without reap passes, a half stays the same |
| Histories.ReapPassSelects | src/metaserver.cpp:453-460 | each of the four lists is checked by its own clock readings, entry by entry, against 930 or 7 seconds, and keeps its order |
| Histories.OtherHalfIrrelevant | src/metaserver.cpp:339-394 | deleting all events of the other half and all list requests changes neither the lists nor the peaks of this half |
| Histories.NothingOlderThanTwoIntervals | src/metaserver.cpp:321-331 | with reap passes at most one interval apart, nothing in any of the four lists is older than two intervals, 1860 seconds in a normal build |
| Paging.PageSlice | src/metaserver.cpp:769-797 | each reply extends the client's collection by the slice between two offsets; it ends the session exactly when the offset was the list size |
| Paging.NextOutOfRangeIff | src/metaserver.cpp:769-772 | after a request that was in range, the next one points behind the end if and only if the list shrank by more than what was still to be fetched |
| Paging.InRangeIff | src/metaserver.cpp:769-772 | whatever happens to the list, every request of the client points into it if and only if the list never shrinks so between two requests |
| Paging.GrowingListIsInRange | src/metaserver.cpp:765-772 | while the list only grows, the iterator never runs off its end: every request of the client points into it |
| Paging.GrowingListIsComplete | src/metaserver.cpp:765-797 | while the list grows only at its end, every request points into it, the client has a prefix of it, and on exit all of it |
| Paging.SparedSessionIsComplete | TestClient/dgclibig.c:76-118 | the same inside any run in which nobody is taken off the list between the requests |
| Paging.ExactCost | TestClient/dgclibig.c:76-118 | against a fixed list of n servers the loop stops after exactly ceil(n / page size) + 1 requests |
| Paging.OffsetsOfFixed | TestClient/dgclibig.c:76-118 | against a fixed list the k-th request asks for k pages further on, or for the end |
| Paging.TwoPagesMeanUnlisted | TestClient/dgclibig.c:76-118 | if two pages hold the same address, some state strictly between the two requests does not list it |
| Paging.RepeatedIffRelisted | TestClient/dgclibig.c:76-118 | whatever happens between the requests, an address is reported more than once if and only if it was in a page, was then off the list, and is back between the two offsets of a later request |
| Paging.NoDuplicateReports | TestClient/dgclibig.c:76-118 | whatever happens between the requests, a server listed throughout is reported at most once |
| Paging.MissedIffOvertaken | TestClient/dgclibig.c:76-118 | over a finished session such a server is reported exactly once, unless removals moved it past the client's offset between two requests, and then not at all |
| PagingWitnesses.RemovalHidesServer | src/metaserver.cpp:769-771 | a run and a finished session in it that misses a server listed in every state of the session |
| PagingWitnesses.RelistingRepeatsServer | src/metaserver.cpp:612-617 | a run and a session in it that reports a server twice which left and came back |
| PagingWitnesses.RemovalsLeaveOffsetBehind | src/metaserver.cpp:769-772 | a run in which two servers leave after the first page and the second request points behind the end |
| Dispatch.EventByBytes | src/metaserver.cpp:337-384 | what every datagram is, by its first four bytes and the value in the next four: 1 and 2 keepalives, 4 and 5 shakes, 6 termination, 7 list request, anything else ignored |
| Dispatch.OneAnswerEach | src/metaserver.cpp:339-394 | a keepalive or list request gets exactly one datagram back, to its sender; nothing else is answered |
| Dispatch.AnswersInOrder | src/metaserver.cpp:314-397 | over any input the recipients of what is sent are the senders of the keepalives and list requests, in order |
| Dispatch.OtherTypesDropped | src/metaserver.cpp:385-393 | a datagram of any other type changes no list and no peak and is not answered |
| Dispatch.AnswerAfterAlarm | src/metaserver.cpp:325-336 | a list request received in a turn with the alarm set is answered from what the reap pass leaves |
| Dispatch.PacketsCounted | src/metaserver.cpp:334-395 | every datagram is one event and counts as one packet; failed receptions and reap passes count as none |
| Dispatch.TrailingBytesIgnored | src/metaserver.cpp:337-384 | the event depends only on the first eight bytes of the zero-padded datagram |
| MetaserverProcess.FindByHS | src/metaserver.cpp:421-433 | the iterator loop stops at the first match by value |
| MetaserverProcess.FindByAddr | src/metaserver.cpp:437-449 | the iterator loop stops at the first match by address |
| MetaserverProcess.Metaserver.constructor | src/metaserver.cpp:81-94 | empty lists, peaks and packet count 0 |
| MetaserverProcess.Metaserver.HandleServerKeepalive | src/metaserver.cpp:534-558 | exactly one keepalive step of the server half: the pending server list gets one entry at its end, no other list changes, and the handshake with its value is sent |
| MetaserverProcess.Metaserver.HandleClientKeepalive | src/metaserver.cpp:562-586 | the same on the client half: only the pending client list and its peak change |
| MetaserverProcess.Metaserver.HandleServerShake | src/metaserver.cpp:590-655 | exactly one shake step of the server half, accepted or not; nothing of the client half changes and nothing is sent |
| MetaserverProcess.Metaserver.HandleClientShake | src/metaserver.cpp:659-712 | the same on the client half, with the signed value of the message |
| MetaserverProcess.Metaserver.HandleTerminate | src/metaserver.cpp:716-753 | exactly one termination step; only the active servers change |
| MetaserverProcess.Metaserver.ReapList | src/metaserver.cpp:464-530 | the erase-while-iterating loop ends and leaves the survivors of one list, and touches no other list |
| MetaserverProcess.Metaserver.Reaper | src/metaserver.cpp:453-460 | exactly one reap pass over the four lists |
| MetaserverProcess.Metaserver.FillResponse | src/metaserver.cpp:773-795 | the response holds the total and page that the paging protocol calls for |
| MetaserverProcess.Metaserver.HandleListRequest | src/metaserver.cpp:757-798 | sends the bytes of that page and changes nothing else |
| MetaserverProcess.Metaserver.HandleDatagram | src/metaserver.cpp:337-394 | every datagram of 4 to 569 bytes makes exactly the step, and sends exactly the answer, of the event its bytes denote |
| MetaserverProcess.Metaserver.TakeTurn | src/metaserver.cpp:325-395 | a reap pass if the alarm is set, then the datagram if one was received |
| MetaserverProcess.Metaserver.Process | src/metaserver.cpp:314-397 | after any input the lists and peaks, everything sent and the packet count are what that input calls for |
| MetaserverProcess.Serve | src/metaserver_main.cpp:49-62 | a fresh metaserver ends in the last state of the history of its input |
| TestPrograms.PackUInt32 | TestServer/dgclibig.c:95-103 | writes one network-order word at the pointer and advances pointer and size by 4 |
| TestPrograms.UnpackUInt32 | TestServer/dgclibig.c:105-112 | reads one network-order word at the pointer |
| TestPrograms.PacketBytes | TestServer/dgclibig.c:68-83 | a reply is a handshake exactly if it starts with 0 0 0 3, and the shake repeats the four bytes of its value |
| TestPrograms.MetaserverKeepalive | TestServer/dgclibig.c:56-84 | sends 0 0 0 1 and answers a handshake reply, and only that, with 0 0 0 4 and the four bytes of its value |
| TestPrograms.MetaserverTerminate | TestServer/dgclibig.c:86-93 | sends 0 0 0 6 |
| TestPrograms.Greet | TestClient/dgclibig.c:57-73 | the same exchange on the client's side, with 0 0 0 2 and 0 0 0 5 |
| TestPrograms.ReadPage | TestClient/dgclibig.c:93-110 | the unpacking loop reads the total and every announced address |
| TestPrograms.MetaserverListReq | TestClient/dgclibig.c:76-118 | the loop sends its offset while it is not done, takes in every page, and stops when done, on any other reply, or to wait for one |
| TestPrograms.AddressArrives | TestClient/dgclibig.c:99-102 | the four address bytes that the client stores are those the metaserver received exactly when both hosts have one byte order or the bytes read the same backwards |
| TestPrograms.PageReadsBack | TestClient/dgclibig.c:93-112 | the client reads from a list response what the metaserver packed |
| TestPrograms.PageOnTheWire | src/metaserver.cpp:769-797 | for every list and offset, the page is the next addresses that fit, its length is 12 + 4k and at most 568 bytes, and the client reads it back |
| TestPrograms.LoopIsSession | TestClient/dgclibig.c:76-118 | when the replies are the metaserver's answers, the client's loop is a session of the paging protocol |
| TestPrograms.FixedListIsFetched | TestClient/dgclibig.c:76-118 | in bytes, against a fixed list of n servers the client's loop stops after exactly ceil(n / page size) + 1 requests and has then collected the list |
| TwoParty.HandleRequest | src/metaserver.cpp:757-798 | the metaserver object answers the request packet of the client with the page at its offset and keeps its lists |
| TwoParty.FetchList | TestClient/dgclibig.c:76-118 | the client's loop against a metaserver object at which nothing else happens collects the list, in order, for exactly ceil(n / page size) + 1 requests; request k asks for page k and reply k is the answer to it |
| TwoParty.LoopInHistory | TestClient/dgclibig.c:76-118 | in any history, when the client's request packets are among the events and its replies are the metaserver's answers, its loop is a session inside the run of the server half |
| TwoParty.WhatTheClientHas | TestClient/dgclibig.c:76-118 | so, in bytes and with any other datagrams and reap passes in between: an address comes twice exactly when relisted, at most once when listed throughout, and then exactly once at the end unless overtaken |
| Exchange.ExchangeSucceeds | src/metaserver.cpp:599-641 | if nobody else spends the value and no reap check finds it stale, the shake is accepted, its sender is listed under the arrival time, and one pending value is gone |
| Exchange.ExchangeOnTheWire | src/metaserver.cpp:534-641 | the same from keepalive bytes through handshake bytes to shake bytes, for servers and clients, in any history |
| Exchange.TerminateOnTheWire | src/metaserver.cpp:716-753 | in any history the four bytes 0 0 0 6 from an address unlist it, leave every other server, every pending handshake and every client as they were, and are not answered |
| Exchange.BogusShakeIgnored | src/metaserver.cpp:590-712 | in any history a shake packet with a value that is not pending on its side changes nothing and is not answered |

## Left out

- Sockets, host lookup, command line, daemon mode, log messages and the external command run on listing or delisting: input and output only.
- SIGINT and the shutdown message: the model ends with its input.
- Address bytes: an address is the number that the metaserver's host reads from them; only `AddressArrives` looks at the bytes.
- Signal timing between the test of the alarm flag and `recvfrom()`: staleness is stated from the actual spacing of the reap passes, and the alarm flag is part of the input of each turn.
- Datagrams of fewer than 4 bytes or of 570 bytes: the base parser then reads bytes it never set.
- MetaserverProcess.Metaserver.HandleListRequest: requires an offset within the list; behind the end the source's iterator runs off the list and what it sends is undefined.
- MetaserverProcess.Metaserver.HandleDatagram: requires the same of a list request, for the same reason.
- MetaserverProcess.Metaserver.TakeTurn: requires the same of a list request, for the same reason.
- MetaserverProcess.Metaserver.Process: requires the same of every list request in its input, for the same reason.
- MetaserverProcess.Serve: requires the same of every list request in its input, for the same reason.
- Messages.ListResponseMsg.FromMessage: requires that the announced addresses lie in the buffer; the source reads behind it.
- Float, double and long long fields: raw host bytes that no message uses.
- Node identity in the lists: the source's list elements are copies of a Handshake that nothing else refers to, so an element is a value here and a timestamp is refreshed by updating that element of the sequence; `SetTimestamp` has no counterpart of its own.
- Peak and packet counters of 2^31 and more: they are unbounded here. A list of 2^32 servers, whose total would wrap to 0, is excluded from the paging sessions.
- The server keepalive message class: the metaserver never builds or parses one.
- The client's HTML output, address-to-text conversion and sleeping between the test server's messages: presentation only.
- Loss and reordering of datagrams inside the client's loop: it blocks on each reply.
