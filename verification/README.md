# AliOS Things: verified models of its hardest parts

This project models, in Dafny, the parts of AliOS Things whose behaviour is hardest to see from reading one
function, and proves what they keep, compute or promise. `dafny verify dfyconfig.toml` checks all of it.

* `SelectProtocol` – sal_select and sal_deal_event as a state machine whose steps are the protected regions. Any
  number of tasks select, any number of tasks post events, and every interleaving is a run. The list of selects stays
  a well-formed doubly linked list, `select_waiting` counts the registrations, and no wakeup is lost – exactly as long
  as at most 255 tasks use select, because `select_waiting` has 8 bits.
* `SelScan` – the scan of the watched descriptors, and the counter `rcvevent` it relies on.
* `Receive` – the mailbox and the partly read packet: stream reads conserve the bytes over whole runs, datagram reads
  take the packets in order, one each, and the size of a stream read is characterised (it can exceed the request).
* `Ports` – the ephemeral-port search and the list of control blocks. The TCP and the UDP code are twins, so one class
  models both and the socket layer has two instances of it.
* `SocketTable` – the descriptor table over any run of socket, eventfd, bind, connect and close, on top of two lists.
* `IpText` – the loose IPv4 parser with its shifts, ORs and 32-bit arithmetic, the printer with its buffer limit, and
  the strict parser with the texts it accepts.
* `Gateway`, `Dlist` – the mesh gateway's clients on an intrusive list and their expiry over whole runs.
* `MqttSn` – a report from the sender's buffer to the receiver's strings.
* `AtWorker`, `Slist` – the AT receive worker: how it cuts the byte stream and drops the out-of-band prefixes that fire,
  what the waiting task is given, and when that stays within the task's memory.
* `WifiMgr` – the two-way station/access point index of the people monitor under reports and expiry.
* `MacTable` – the chained hash table of MAC addresses as a set.
* `SectorFile` – sector read-modify-write as a flat array of bytes.
* `WriteProtect` – the two write-protect areas of a flash bank as a set of pages.

What the hardware, the clock, memory and other modules answer is a parameter of the operation concerned. Where a
promise fails, the code is kept as it is and the exact condition is proved:

* A wakeup can be lost with 256 selecting tasks (`NoLostWakeupIffFewSelectors`; `TooManySelectors` is the run).
* A stream read returns more than was asked for unless everything unread fits or the first packet with data fills
  the request (`StreamReadWithinRequestIff`; `StreamReadOverruns` is an input).
* A report is delivered as it was sent if and only if its message has at most 254 bytes (`ReportRoundTrip`). The length
  byte is the total plus one, which is not the length of section 5.2.1 of MQTT-SN v1.2; the model follows the code.
* The AT status line stays in the buffer, and begins the next task's reply, unless the receive delimiter ends it or the
  buffer is full (`NothingLeftBehindIff`, `LineIsCopiedAgain`; `StatusLineStays` is an input). A status line that a full
  buffer cuts in two is not recognised (`SeenIff`; `StatusCutInTwo` is an input).
* A status line is copied to the waiting task without comparing it with the size of the task's memory, as is done for
  the other lines. It stays within that memory exactly if it fits behind what is there (`StatusFitsIff`, with memory
  for the error text; `StatusOverruns` are inputs).
* An access point named "" can break the station index. A report keeps the index in step exactly if it is `Safe`, which
  is read off the state before it: before "" is known the report must come from a named access point, or be of a known
  station while every station has a best access point; once "" is known the station must be known, or come with a
  reading above the floor from a named access point (`ReportKeepsSound`, `ReportRssi`; `NamelessReport` and
  `NamelessFaintReport` are inputs). House keeping keeps the index in step exactly if "" is not known or no station is
  dropped (`HouseKeeping`; `NamelessExpiry` is an input, in a state that `NamelessState` reaches in step).
* `ConfigWRP` protects one range, pages 254 and 255 of a bank of 512 KB. Unprotecting it always succeeds, and clears
  both pages if and only if one area has them to itself; an area that ends at page 254 keeps that page
  (`UnprotectLeavesPage`). The union and difference of areas behind it are proved for every range of pages. Two of their
  failures cannot occur for the range the code uses (`KmNeverSplits`): a range that starts at page 0 can be refused
  although an area touches it, because `StartPage - 1` wraps around (`NoRoom`, `PageZeroRefused`), and splitting the
  first area loses the part after the range if just its own half can be programmed (`LosesTail`, `SplitLosesTail`).

## Model

| member | source | states |
|---|---|---|
| SelectProtocol.NoLostWakeupIffFewSelectors | device/sal/sal_sockets.c:904-1019 | in every reachable state with no walk under way each sleeper with an event on a watched socket can wake up, if and only if at most 255 tasks select |
| SelectProtocol.SelectListAndWakeups | device/sal/sal_sockets.c:904-1019 | with at most 255 selecting tasks every reachable state has select_waiting equal to the registrations, a well-formed list of exactly the active selects, and no sleeper with an event that is neither signalled nor about to be visited |
| SelectProtocol.RunKeepsInv | device/sal/sal_sockets.c:847-1063 | the inductive invariant holds after every run of atomic steps |
| SelectProtocol.StepKeepsInv | device/sal/sal_sockets.c:1425-1513 | every atomic step keeps the invariant, with the list changed only by insertion at the head and removal |
| SelectProtocol.InsertKeepsLinked | device/sal/sal_sockets.c:907-915 | putting an entry on top gives the doubly linked list with the entry in front |
| SelectProtocol.RemoveKeepsLinked | device/sal/sal_sockets.c:1006-1018 | unlinking an entry gives the doubly linked list without it, in the same order |
| SelectProtocol.StepKeepsCounted | device/sal/sal_sockets.c:922-946 | every step keeps select_waiting equal to the number of selects registered on each socket, as long as fewer than 256 tasks select |
| SelectProtocol.StepKeepsEntries | device/sal/sal_sockets.c:888-902 | every step keeps the entries sound: a signalled sleeper has its semaphore up, a new entry has no predecessor, registrations stay within the watched descriptors |
| SelectProtocol.StepKeepsWalkers | device/sal/sal_sockets.c:1502-1509 | a walker whose counter is current stands on an entry of the list, through every insertion, removal and restart |
| SelectProtocol.StepKeepsNoneLost | device/sal/sal_sockets.c:1469-1510 | every step keeps each sleeper with an event signalled or ahead of a running walk on that socket |
| SelectProtocol.WalkDelivers | device/sal/sal_sockets.c:1469-1510 | a walk that no one disturbs signals a sleeper ahead of it within as many rounds as there are entries between |
| SelectProtocol.InvLeavesNoSleeper | device/sal/sal_sockets.c:1494-1499 | with no walk under way, a waiting task with an event on a watched socket has its semaphore up |
| SelectProtocol.TooManySelectors | device/sal/sal_sockets.c:932-934 | 256 tasks asleep on one socket bring select_waiting back to 0 and the next packet wakes none of them |
| SelScan.Scan | device/sal/sal_sockets.c:1066-1130 | the sets returned are exactly the watched descriptors in range that are ready when their turn comes, and the count is the total of marks |
| SelScan.StepsCountMarks | device/sal/sal_sockets.c:1066-1130 | n steps of one task's scan look at the descriptors below n and count their marks, which for all of them is the count that the scan returns |
| SelScan.ScanIsARun | device/sal/sal_sockets.c:1066-1130 | those steps are a run of the select protocol |
| SelScan.CounterExactAtRest | device/sal/sal_sockets.c:1392-1423 | when no input or read is half done, rcvevent equals the mailbox depth after any interleaving of posting, fetching and counting |
| SelScan.TickKeepsInStep | device/sal/sal_sockets.c:820-845 | every step keeps the 16-bit counter equal to the depth corrected by the calls in between |
| Receive.StreamRunConserves | device/sal/sal_sockets.c:1132-1242 | over any run of inputs and reads on a stream socket the bytes read followed by the unread bytes are the bytes accepted, in order |
| Receive.DatagramRunTakesInOrder | device/sal/sal_sockets.c:1132-1242 | over any run of inputs, reads and peeks on a datagram socket the k-th read returned the prefix of the k-th packet accepted, and the later packets are unread, in order |
| Receive.StreamReadConserves | device/sal/sal_sockets.c:1157-1241 | one stream read returns a prefix of the unread bytes and leaves exactly the rest |
| Receive.PeekKeepsBytes | device/sal/sal_sockets.c:1197-1236 | MSG_PEEK shows a prefix of the unread bytes and leaves them and their packets unchanged |
| Receive.DatagramReadTakesOne | device/sal/sal_sockets.c:1189-1236 | a datagram read returns the prefix of the first packet and takes exactly that packet |
| Receive.StreamReadWithinRequestIff | device/sal/sal_sockets.c:1190-1207 | a stream read stays within the requested length if and only if everything unread fits or the first packet with data fills the request |
| Receive.RequestedBufferSufficesIff | device/sal/sal_sockets.c:1190-1207 | a buffer of the requested length is enough exactly for datagrams, peeks and stream reads that stay within the request |
| Receive.StreamReadFills | device/sal/sal_sockets.c:1190-1207 | a stream read returns at least the smaller of the request and what is unread |
| Receive.StreamReadOverruns | device/sal/sal_sockets.c:1190-1207 | two packets of 3 bytes and a request of 4 give 6 bytes |
| Receive.InputConserves | device/sal/sal_sockets.c:1349-1423 | an accepted packet joins the end of what is unread and keeps the bytes conserved; a refused one changes nothing |
| Receive.RecvConserves | device/sal/sal_sockets.c:1132-1242 | a read or peek moves bytes from the unread to the delivered ones without losing or repeating any |
| Receive.ReadByRounds | device/sal/sal_sockets.c:1157-1238 | a read is its first round's bytes followed by the read of what that round leaves |
| Receive.RecvSocket.PacketInput | device/sal/sal_sockets.c:1349-1423 | a packet is queued at the end exactly if it has data, memory and room in the mailbox; its length is kept to 16 bits |
| Receive.RecvSocket.RecvFrom | device/sal/sal_sockets.c:1132-1242 | the memory from the caller's pointer on, the result and the socket afterwards are those of the read, or EWOULDBLOCK with nothing changed |
| Receive.RecvSocket.Rounds | device/sal/sal_sockets.c:1157-1241 | the loop terminates and puts the read's bytes, and nothing else, in the caller's buffer |
| Receive.RecvSocket.Round | device/sal/sal_sockets.c:1157-1238 | one round copies the next part of the current packet and keeps or drops its rest as the protocol asks |
| Receive.RecvSocket.Status | device/sal/sal_sockets.c:1089-1104 | the fields the scan looks at say readable exactly if something is unread |
| Receive.RecvSocket.Perform | device/sal/sal_sockets.c:1132-1242 | an input or a read that does not wait is the step of the runs the lemmas are about |
| Ports.EnsureLocalPortRange | device/sal/sal_sockets.c:192-194 | the masked and shifted random number is a port of the dynamic range of section 6 of RFC 6335 |
| Ports.PcbTable.NewPort | device/sal/sal_sockets.c:206-231 | the port is the first free one after the last handed out, and 0 exactly if all 16384 are taken |
| Ports.SearchSucceedsBelowCapacity | device/sal/sal_sockets.c:206-231 | with fewer than 16384 listed ports some candidate of a round is free |
| Ports.FullRound | device/sal/sal_sockets.c:215-231 | a round in which every candidate is taken means the whole range is taken |
| Ports.RoundCoversRange | device/sal/sal_sockets.c:215-218 | one round from any start meets every port of the range |
| Ports.PcbTable.Bind | device/sal/sal_sockets.c:233-283 | a bind succeeds, is refused or finds no port exactly when it should, changes nothing when it fails, and otherwise sets the port and lists the block once |
| Ports.PcbTable.Remove | device/sal/sal_sockets.c:285-305 | exactly the block leaves the list; order and ports of the others stay |
| Ports.PcbTable.UsedByOther | device/sal/sal_sockets.c:257-267 | true exactly if another listed block has the port |
| SocketTable.RunCalls | device/sal/sal_sockets.c:1523-1825 | any run of socket, eventfd, bind, connect and close keeps the table and both lists well formed; no descriptor is a socket and an event, and each connection names its own descriptor |
| SocketTable.SocketLayer.Socket | device/sal/sal_sockets.c:1554-1599 | the lowest free descriptor is given a fresh unbound connection of the right protocol, or nothing changes |
| SocketTable.SocketLayer.EventFd | device/sal/sal_sockets.c:472-494 | the first free event is taken and its descriptor is not a socket; -1 exactly if none is free |
| SocketTable.SocketLayer.Alloc | device/sal/sal_sockets.c:1523-1552 | the lowest free slot takes the connection and its number is stored in it |
| SocketTable.SocketLayer.Close | device/sal/sal_sockets.c:1779-1825 | a successful close makes the descriptor unresolvable and frees its port; every other socket, event and list entry is as before, and a failed one changes nothing |
| SocketTable.SocketLayer.Connect | device/sal/sal_sockets.c:677-746 | success and failure are exact, and an unbound UDP socket gets precisely the port announced to the module |
| SocketTable.SocketLayer.Bind | device/sal/sal_sockets.c:1668-1708 | the socket's block takes the address and port in its own list, refused exactly if another socket of that protocol has the port; port 0 finds a free dynamic one exactly if there is one |
| SocketTable.SocketLayer.BindConn | device/sal/sal_sockets.c:785-818 | the bind touches one control block and one list; the other protocol's list and ports stay |
| SocketTable.SocketLayer.Detach | device/sal/sal_sockets.c:640-675 | deleting a connection takes its block, and only it, off the list of its protocol |
| SocketTable.ListsDisjoint | device/sal/sal_sockets.c:640-675 | the TCP and the UDP list never share a control block |
| IpText.Aton | device/sal/ip4_addr.c:29-140 | the parser accepts exactly the loose address texts and stores the arithmetic value of their parts in network order |
| IpText.ReadParts | device/sal/ip4_addr.c:37-90 | the loop reads the parts between the dots and stops where the last one ends, or fails only on a text that is no address |
| IpText.Compose | device/sal/ip4_addr.c:95-135 | shifting and OR-ing the parts gives their sum at weights 2^24, 2^16 and 2^8 with the last part filling the rest; out-of-range parts are refused |
| IpText.Shifted4AddsUp | device/sal/ip4_addr.c:123-131 | four parts shifted and OR-ed are their weighted sum |
| IpText.OrIsSum | device/sal/ip4_addr.c:103-131 | OR-ing a number below 2^k into a multiple of 2^k adds it |
| IpText.ReadDigits | device/sal/ip4_addr.c:58-68 | the loop, with its shifts for hexadecimal digits, reads the digits of the base modulo 2^32 |
| IpText.DigitsSpellTheNumber | device/sal/ip4_addr.c:58-68 | the digits read fold to the number they spell, modulo 2^32 |
| IpText.QuadRoundTrip | device/sal/ip4_addr.c:152-188 | parsing the printed form of any 32-bit address succeeds with that address |
| IpText.NtoaR | device/sal/ip4_addr.c:152-188 | the dotted quad and its terminator are stored exactly if the buffer has room for both; nothing past buflen is written |
| IpText.ByteDigits | device/sal/ip4_addr.c:167-173 | the digits collected backwards are the decimal text of the byte |
| IpText.IpstrToU32 | device/sal/sal_sockets.c:433-464 | the loop computes the strict reading of the text |
| IpText.StrictQuad | device/sal/sal_sockets.c:433-464 | the strict reading of a canonical dotted quad stores its four bytes |
| IpText.StrictMeaning | device/sal/sal_sockets.c:433-464 | the strict parser looks at 15 characters, accepts exactly digits with at most three dots, and stores each group modulo 256, an empty one as 0 |
| IpText.ParsersAgreeOnQuads | device/sal/sal_sockets.c:433-464 | on the canonical dotted quad of every address both parsers succeed with that address |
| Dlist.AddTail | include/aos/list.h:61-64 | the node joins the ring at its end |
| Dlist.Del | include/aos/list.h:66-73 | the node leaves the ring; the others keep their order |
| Dlist.EntryNumber | include/aos/list.h:185-193 | the number of entries of the ring |
| Gateway.ExpiryOverRuns | framework/gateway/gateway_service.c:713-729 | over any run without a CONNECT of the client its timeout is the smaller of 48 and its old value plus the completed advertisements, and it is logged out exactly once, on reaching 48 |
| Gateway.ConnectRestartsTheClock | framework/gateway/gateway_service.c:524-551 | after an accepted CONNECT the count starts from 0 and the logout happens again exactly if 48 advertisements follow |
| Gateway.OpKeepsClients | framework/gateway/gateway_service.c:461-522 | every operation keeps the addresses distinct and the timeouts at most 48, and changes only the clients it concerns |
| Gateway.RenewKeepsClients | framework/gateway/gateway_service.c:461-522 | a CONNECT resets exactly the client of that address, in place, or adds one at the end |
| Gateway.ExpirationsOfTick | framework/gateway/gateway_service.c:713-717 | one advertisement logs out a client exactly if its timeout stands at 47 |
| Gateway.GatewayState.NewClient | framework/gateway/gateway_service.c:461-522 | the list is the renewed one and the event is reported, or nothing changes if the new device is refused |
| Gateway.GatewayState.HandleConnect | framework/gateway/gateway_service.c:524-551 | the acknowledgement, the clients and the events are those of an accepted or a refused CONNECT |
| Gateway.GatewayState.AgeEvery | framework/gateway/gateway_service.c:713-729 | walking the list ages every client once, in order, with the logouts in that order |
| Gateway.GatewayState.Perform | framework/gateway/gateway_service.c:664-730 | the operations on the linked list are the steps of the runs the lemmas are about |
| Gateway.GatewayState.Stop | framework/gateway/gateway_service.c:958-984 | every client leaves, first to last, and the list is empty |
| MqttSn.ReportRoundTrip | framework/gateway/gateway_service.c:553-580 | a report is delivered as it was sent if and only if its message has at most 254 bytes |
| MqttSn.HeaderAcceptsIff | framework/gateway/mqtt_sn.h:96-117 | which reports pass the header check, given the length byte msn_alloc stores and the receive buffer |
| MqttSn.ReportMeaning | framework/gateway/gateway_service.c:338-378 | taking a report apart gives "rpt", the method and the JSON back |
| MqttSn.LongReportIsCut | framework/gateway/gateway_service.c:641-662 | a longer report is never delivered whole |
| MqttSn.CloudReport | framework/gateway/gateway_service.c:553-580 | the buffer sent is the header, "rpt", the method and the JSON, each terminated, and nothing is sent unless the gateway is joined to another one |
| MqttSn.MsnAlloc | framework/gateway/mqtt_sn.h:133-149 | the block has the length byte, the type and room for header and payload |
| MqttSn.MsnParseHeader | framework/gateway/mqtt_sn.h:96-117 | the start after a one- or three-byte length, and the length announced, negative exactly if what arrived is neither that length nor three bytes more |
| MqttSn.HandleMsg | framework/gateway/gateway_service.c:615-639 | a message goes to the handler of its type or to none, and the strings of a PUBLISH are taken apart as its bytes say |
| MqttSn.SockRead | framework/gateway/gateway_service.c:641-662 | at most 256 bytes of a datagram arrive, and it is delivered exactly if its header announces what arrived |
| Slist.AddTail | include/aos/list.h:223-230 | the node joins the list at its end |
| Slist.Del | include/aos/list.h:232-242 | the node leaves the list, or nothing changes if it is not on it |
| AtWorker.BufferNeverFull | framework/atparser/atparser.c:564-569 | after any stream, with any delimiter, prefixes and task, the buffer index is at most 509 |
| AtWorker.ReplyIsTheStream | framework/atparser/atparser.c:572-641 | from whatever was left in the buffer and with any prefixes, up to the first status seen the waiting task gets the pieces of the stream in order, each once, and then the status line and one signal; prefixes that fire are left out |
| AtWorker.WholeStreamIff | framework/atparser/atparser.c:572-611 | with a status seen, what the task gets is what was left in the buffer and the whole stream if and only if no prefix fires on it |
| AtWorker.SilentPrefixes | framework/atparser/atparser.c:572-586 | prefixes that do not fire make no difference to buffer, callbacks and reply, for any task |
| AtWorker.BufferIsRest | framework/atparser/atparser.c:557-641 | after any stream the buffer holds the rest of its framing, whatever task there is, and each prefix that fired was one call of its callback |
| AtWorker.NoneFiresIff | framework/atparser/atparser.c:572-586 | no chunk of the framing is a prefix that fired if and only if no line on the way was a registered prefix |
| AtWorker.NothingLeftBehindIff | framework/atparser/atparser.c:633-641 | after the status the buffer holds the last line, or nothing exactly if that line is also a cut, which a delimiter ending both statuses ensures |
| AtWorker.LineIsCopiedAgain | framework/atparser/atparser.c:596-641 | a status line that stays is in the buffer when the next task's stream begins, and the next reply is that line and the stream up to its own status if and only if no prefix fires |
| AtWorker.PieceTooLong | framework/atparser/atparser.c:613-630 | a piece that does not fit into the task's memory is not copied: the memory begins with the error status and the task is woken |
| AtWorker.StatusFitsIff | framework/atparser/atparser.c:596-630 | every run stays within the task's memory up to the first status, and with it if and only if the status line fits behind what is there |
| AtWorker.OverflowFitsIff | framework/atparser/atparser.c:621-622 | storing the error text stays within the task's memory if and only if that has eight bytes |
| AtWorker.StatusOverruns | framework/atparser/atparser.c:602-603 | behind a line that leaves fewer than four bytes of the memory, "OK" goes past its end |
| AtWorker.StatusLineStays | framework/atparser/atparser.c:597-611 | with the delimiter "X" the status line is both in the reply and still in the buffer |
| AtWorker.SeenIff | framework/atparser/atparser.c:572-598 | a status ending the stream is seen exactly if the buffer was not emptied inside it and the line is not a registered prefix |
| AtWorker.StatusCutInTwo | framework/atparser/atparser.c:596-641 | after a line of 508 characters the status "OK" is cut by the full buffer and not seen |
| AtWorker.FrameIsFraming | framework/atparser/atparser.c:572-641 | the chunks and the rest make up what was in the buffer and the stream, and each chunk ends as soon as it is a prefix or a cut |
| AtWorker.FramingIsUnique | framework/atparser/atparser.c:572-641 | there is only one way to cut a stream so |
| AtWorker.OobFires | framework/atparser/atparser.c:572-586 | a text is dropped exactly if it is a registered prefix, with one call however often that is registered |
| AtWorker.OobNeverGrows | framework/atparser/atparser.c:572-586 | the out-of-band comparison leaves no more in the buffer than was there |
| AtWorker.Worker.OnByte | framework/atparser/atparser.c:557-641 | one turn of the loop has the specified effect on the buffer, the number of callbacks and the first task, and later tasks are untouched |
| AtWorker.Worker.Take | framework/atparser/atparser.c:564-586 | there is room for the byte, and the buffer and the callbacks are then as the prefixes say |
| AtWorker.Worker.Work | framework/atparser/atparser.c:557-641 | the loop over a stretch of input, from any buffer, computes the specified run |
| AtWorker.Worker.CheckOob | framework/atparser/atparser.c:572-586 | a buffer equal to a registered prefix is emptied and its callback called, prefix by prefix |
| AtWorker.Worker.Submit | framework/atparser/atparser.c:359-360 | a new task goes to the end of the task list |
| AtWorker.Worker.Finish | framework/atparser/atparser.c:389-392 | a woken task takes exactly itself off the list |
| WifiMgr.KeptIsLatest | example/wifimonitor/wifimonitor.py:96-142 | after any run what is kept of a station and an access point is their latest report if it is under 30 s old, and nothing otherwise |
| WifiMgr.EveryStationCounted | example/wifimonitor/wifimonitor.py:62-63 | the station counts over all access points add up to the tracked stations when each has a reading of at least -1000 |
| WifiMgr.CountsAddUp | example/wifimonitor/wifimonitor.py:50-63 | the counts of different access points add up to the stations best heard by one of them |
| WifiMgr.ReportKeepsSound | example/wifimonitor/wifimonitor.py:130-142 | from every state in step a report leaves everything in step if and only if it is safe, a condition on the state and the report before the call |
| WifiMgr.MoveIff | example/wifimonitor/wifimonitor.py:86-94 | moving a station keeps the index equal to the best access points if and only if the station was known, has a best access point, or no access point is named "" |
| WifiMgr.FirstNameless | example/wifimonitor/wifimonitor.py:123-142 | the first report by "" keeps the index right if and only if its station is known and every station has a best access point |
| WifiMgr.NamelessReport | example/wifimonitor/wifimonitor.py:130-142 | a first report by an access point "" leaves the index out of step |
| WifiMgr.NamelessState | example/wifimonitor/wifimonitor.py:130-142 | "s" heard by "B" and then louder by "" leaves everything in step with "" known |
| WifiMgr.NamelessExpiry | example/wifimonitor/wifimonitor.py:96-104 | 30 s later house keeping drops "s" but leaves it with the access point "" |
| WifiMgr.NamelessFaintReport | example/wifimonitor/wifimonitor.py:130-142 | in that state a new station heard by the named "B" at -1001 leaves the index out of step |
| WifiMgr.AgeKeepsSound | example/wifimonitor/wifimonitor.py:98-104 | ageing one station keeps everything in step while no access point is named "" or no station has gone, and out of step for good otherwise |
| WifiMgr.HouseKept | example/wifimonitor/wifimonitor.py:96-104 | after the walk everything is in step if and only if no access point is named "" or no station went |
| WifiMgr.Sta.UpdateMax | example/wifimonitor/wifimonitor.py:20-27 | max_ap is where the greatest rssi is attained, or "" if every reading is below -1000 |
| WifiMgr.Sta.Expired | example/wifimonitor/wifimonitor.py:37-48 | exactly the readings of 30 s or more go, and the answer says whether none is left |
| WifiMgr.Mgr.MaxChanged | example/wifimonitor/wifimonitor.py:86-94 | the station moves between exactly the two access points, where they are known |
| WifiMgr.Mgr.ReportRssi | example/wifimonitor/wifimonitor.py:130-142 | the reading is stored, station and access point are known from then on, and what was in step stays so if and only if the report is safe |
| WifiMgr.Mgr.HouseKeeping | example/wifimonitor/wifimonitor.py:96-104 | exactly the readings under 30 s and the stations that have one are kept, whatever the order of the walk, and what was in step stays so if and only if no access point is named "" or no station goes |
| WifiMgr.Mgr.Run | example/wifimonitor/wifimonitor.py:108-121 | any run of reports from named access points and house keeping keeps everything in step |
| WifiMgr.CountedRun | example/wifimonitor/wifimonitor.py:108-121 | after any run from scratch with reports of at least -1000 by named access points the readings are those of the run and the station counts then drawn add up to the stations tracked |
| WifiMgr.Mgr.StaNums | example/wifimonitor/wifimonitor.py:210-215 | the walk over the access points, in any order, gets the number of stations of each once |
| WifiMgr.CountsSum | example/wifimonitor/wifimonitor.py:182-189 | the numbers drawn add up to the total over the index |
| WifiMgr.LoudRuns | example/wifimonitor/wifimonitor.py:20-48 | if no reading below -1000 is reported none is ever kept |
| MacTable.Count | example/wifimonitor/wifimonitor.c:303-335 | from a reset table, the answers to any run of probes are those of a set and mac_sum is the set's size |
| MacTable.AnsweredOneIff | example/wifimonitor/wifimonitor.c:303-335 | a probe is answered 1 exactly if an earlier probe of the same address found memory |
| MacTable.CountedIff | example/wifimonitor/wifimonitor.c:303-335 | an address is counted exactly if one of its probes found memory |
| MacTable.ZerosAreTheCounted | example/wifimonitor/wifimonitor.c:331-335 | the probes answered 0 are as many as the different addresses counted |
| MacTable.Table.CheckSameMacAndAddNew | example/wifimonitor/wifimonitor.c:303-335 | the answer is exact, a failed allocation changes nothing, and chains stay acyclic with every node in the bucket of its first byte |
| MacTable.Table.Find | example/wifimonitor/wifimonitor.c:309-319 | the walk finds the address if it is there and otherwise the end of its chain |
| MacTable.Table.Append | example/wifimonitor/wifimonitor.c:321-329 | one node for the address joins the end of the chain of its first byte, and no other chain changes |
| MacTable.CompareHighMac | example/wifimonitor/wifimonitor.c:293-301 | 0 exactly if the bytes are equal |
| MacTable.Table.Reset | example/wifimonitor/wifimonitor.c:219-220 | the table is empty and well formed |
| SectorFile.Driver.Run | example/vflashdemo/main.c:22-80 | any run of seeks, writes and reads on a working flash is the same run on a flat array |
| SectorFile.Driver.FlashWrite | example/vflashdemo/main.c:22-65 | the write patches exactly its bytes and advances the offset; out of range or without memory nothing changes; erased sectors that cannot be programmed stay erased |
| SectorFile.Driver.Replace | example/vflashdemo/main.c:46-55 | erasing and programming stores the buffer although programming only clears bits |
| SectorFile.EraseThenProgram | example/vflashdemo/main.c:46-55 | what is programmed after an erase is what is stored |
| SectorFile.PatchWithin | example/vflashdemo/main.c:38-44 | patching the sectors' bytes and putting them back patches the whole array |
| SectorFile.LeastCover | example/vflashdemo/main.c:29-30 | the sectors touched are the least stretch of whole sectors that holds the bytes |
| SectorFile.CoverFits | example/vflashdemo/main.c:29-30 | the sectors are on the flash exactly if the bytes are |
| SectorFile.Driver.FlashRead | example/vflashdemo/main.c:67-80 | the bytes at the offset are returned and the offset moves past them, or 0 with nothing changed |
| WriteProtect.PlanEnable | board/b_l475e/osa_flash.c:261-338 | success makes the protected pages the old ones and the range exactly; it fails exactly if both areas are in use and neither can take the range in |
| WriteProtect.PlanDisable | board/b_l475e/osa_flash.c:339-432 | success takes all of the range away, and nothing else, exactly if one area has it to itself; it fails exactly if an area cannot be split |
| WriteProtect.OptionBytes.Configure | board/b_l475e/osa_flash.c:261-465 | protecting is all or nothing whatever can be programmed; unprotecting loses pages outside the range exactly if the first area is split and programmed and the second is not |
| WriteProtect.OptionBytes.ProtectForAWhile | board/b_l475e/osa_flash.c:261-465 | protecting a range disjoint from both areas and unprotecting it restores the protected pages, and always can |
| WriteProtect.OptionBytes.ConfigWRP | board/b_l475e/osa_flash.c:214-466 | for the range of the code, when it fails, that protecting adds exactly its pages, that unprotecting touches no other page, and exactly when it clears them |
| WriteProtect.PagesCoverStretch | board/b_l475e/osa_flash.c:20-73 | within a bank the pages between the first and the last address are exactly those holding an address of the stretch |
| WriteProtect.KmPages | board/b_l475e/osa_flash.c:11-73 | the protected range is pages 254 and 255 of one bank, swapped or not |
| WriteProtect.KmNeverSplits | board/b_l475e/osa_flash.c:224-432 | for that range no area is ever split and page 0 never matters: protecting fails exactly if both areas are in use and end before page 253 |
| WriteProtect.UnprotectLeavesPage | board/b_l475e/osa_flash.c:339-432 | with an area 200-254 unprotecting succeeds and page 254 stays protected |
| WriteProtect.SplitLosesTail | board/b_l475e/osa_flash.c:362-385 | on another range, 12-14 of 10-20, a failed second programming loses page 18 |
| WriteProtect.PageZeroRefused | board/b_l475e/osa_flash.c:263-338 | as an algebra over any range, areas 0-1 and 10-12 refuse 0-3 although it overlaps the first; the code's own range never starts at page 0 |

## Left out

- Select: event descriptors in a select (sal_write signals them by another path), closing a socket while it is selected (marked as a gap in the code), and the failure to create a semaphore.
- Select: the list counter select_cb_ctr is unbounded here; in C its overflow is undefined.
- RecvFrom: the memory from the caller's pointer on must hold all that one read copies, because the length is not reduced between rounds (RequestedBufferSufficesIff says when the caller's own buffer does); the source address and the other flags are not modelled.
- Rounds: the same memory as RecvFrom.
- Await: a blocking read on an empty mailbox is given the packet that arrives, or none; the order of several blocked readers is not modelled.
- Close: what becomes of the memory of a socket, in particular of an unread packet, which the code drops.
- RunCalls: sal_listen and accepted connections; a connection is a value in its slot, so two slots cannot share one.
- Connect: addresses other than IPv4 and the text form of the address given to the module; IP addresses are plain numbers.
- Printing an address and port for the module (ip4_sockaddr_to_ipstr_port), name resolution and socket options.
- Aton: a null result pointer; isspace and isdigit are those of the C locale, and characters are 8-bit.
- CloudReport: the AES step, its own inverse on the other side, and a failed malloc; a message with the 3-byte length form is framed but its reply is not built.
- Perform: the packets a gateway sends out and the connection of the gateway itself to another one.
- Worker: sending commands, the two-stage send, at_read and the synchronous mode; an out-of-band callback is only counted, and may not read from the UART itself (a stream is what the worker reads). The suffix tests look before the start of a short buffer in C and are taken as "the buffer ends with".
- ReplyIsTheStream: with pieces that fit; after a piece that did not (PieceTooLong) only BufferIsRest, StatusFitsIff and the single turns (OnByte) say what follows.
- BufferIsRest: callbacks are not counted this way if an empty prefix is registered, which is called whenever the buffer has just been emptied.
- OnByte: the task list changes only between turns, as the mutex around the list does not cover the worker.
- ReportRssi: the rssi is an integer; a message without its fields counts as no report.
- KeptIsLatest: requires a clock that does not run backwards from one turn to the next.
- StaNums: the timer runs in another thread than the manager; here it fires between two turns of the manager's loop.
- Run: reports from an access point named "" are excluded (ReportRssi has the exact condition); the display, the socket and JSON; every walk over a dictionary is in an order of its own.
- CheckSameMacAndAddNew: freeing the table, and mac_sum beyond 32 bits.
- FlashWrite: a flash call that fails changes nothing and returns a negative code, as the driver expects; the header of the flash interface promises EIO. Offsets and lengths do not wrap.
- Configure: reading the protection level and the reset; the pages are those of one bank with at most 256 pages, and after a failed programming the locked option bytes take no other one.
- ConfigWRP: the size of a bank is read from the device; here it is 512 KB.
- CleanProtectionWRP, osa_flash_write and osa_flash_erase: a fixed option byte, a plain loop over double words, and an address that steps downwards.
- The boards, the network manager, the key-value store, over-the-air updates and the sample applications: configuration or plumbing.
