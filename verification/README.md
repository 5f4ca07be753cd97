# Kendo, verified

Kendo is a Windows packet analyser: a capture thread puts frames into a pool, appends them to a dump
file and posts messages; the window lists the packets, and shows one of them as a tree and as a hex dump.
This project models the logic below the user interface and proves what it does, over all inputs, all
runs and all interleavings.

| file | what it holds |
|---|---|
| `Bytes.dfy` | bytes, big-endian fields, character classes, C strings |
| `Decode.dfy` | the layers a frame decodes to, as a function of its bytes |
| `PacketModel.dfy` | packets and pools as values: assignment, numbering, density over all runs |
| `PacketObject.dfy` | the class `Packet`: buffers, layer pointers, `operator=`, the decode chain |
| `PacketPool.dfy` | the class `PacketPool` over `Packet` objects, in place |
| `PacketList.dfy` | the list control: rows added message by message, and the two redraws |
| `Session.dfy` | the session state machine and its invariants over every run |
| `CaptureApp.dfy` | the program as one object with its `PacketPool`: handlers that update it in place, keep it valid and follow every run |
| `Replay.dfy` | saving a capture, copying it and opening it again |
| `DhcpOptions.dfy` | the DHCP option loop against the generic tag-length-value rule |
| `DnsName.dfy` | both name translators and the round trip with the RFC 1035 encoding |
| `DnsQuestions.dfy` | the question section cursor and its round trip |
| `DnsPointers.dfy` | names with compression pointers as the code reads them: termination and the text shown |
| `DnsStandard.dfy` | the same names as RFC 1035 reads them: when the code follows them and shows them |
| `HttpLines.dfy` | the HTTP line splitter |
| `HexDump.dfy` | the hex dump printer, its layout, and a reader that undoes it |

Layer pointers are offsets into the captured bytes; a C pointer into memory is an index into a byte
sequence; list, tree and edit controls are the sequences of what was inserted. Where C code would read
outside its memory, the model requires that it does not (`Decodable`, `Readable`, `Walkable`,
`Scannable`): these predicates say exactly that each byte the code reads exists, and the round trips
prove them from the encoding instead of asking for them.

Where the code departs from what its comments or the standards say, the model follows the code and the
exact domain of agreement is proved:

- the filtered redraw visits 0..n-1 of a pool numbered 1..n (`PacketList.FilteredRedrawAgreesIff`,
  `PacketList.RedrawDropsArp`);
- the filter entry "IP" matches no packet, the label is "IPv4" (`PacketList.IPFilterMatchesNothing`);
- `operator=` keeps a stale HTTP pointer (`PacketModel.AssignCopiesIff`, `PacketModel.StaleAssignment`), keeps
  the target's label for an empty source (`PacketModel.LabelKept`) and does not resize the buffer (the capacity
  precondition of `Packet.Assign`); a pool object that only sees captures and clears meets none of these
  (`PacketPool.PacketPool.Perform`);
- `num` has 16 bits (`PacketModel.NumberIsPlaceIff`, `Session.NothingLostIff`);
- opening a file has no handle guard (`Session.OpenIsSafeIff`, `Session.StopThenOpenBreaks`);
- closing a file is enabled while it is being read and leaves messages of packets that are gone
  (`Session.QueueStepIff`, `Session.CloseStrandsMessage`), and parts dump and pool (`Session.DumpStepIff`);
- a redraw while packet messages wait can list packets twice (`Session.ClearSettlesIff`,
  `Session.FilterSettlesIff`, `Session.ClearListsTwice`);
- option 3 advances 5 bytes an address (`DhcpOptions.AdvanceIsTlvIff`, `DhcpOptions.WalkRefinesTlvIff`,
  `DhcpOptions.TwoRouters`);
- option 61 of another type shows text that an earlier option left behind (`DhcpOptions.NothingLeftIff`,
  `DhcpOptions.ForeignText`);
- label lengths that are themselves name characters stay in the text, and other bytes than letters, digits and
  '-' turn into dots (`DnsName.NameRoundTripIff`, `DnsName.CountKept`, `DnsName.UnderscoreLost`);
- the bytes in front of a compression pointer are not translated (`DnsStandard.StandardNameShownIff`,
  `DnsPointers.LabelledHop`), and its offset is one signed byte, so that the code follows the standard only below
  offset 128 (`DnsStandard.FollowsIff`, `DnsStandard.FarPointer`);
- `printDNSQuery` returns one more than the bytes it consumed (`DnsQuestions.PrintDNSQuery`);
- an HTTP payload that does not end in CR and one more byte runs into what follows
  (`HttpLines.HttpSplitIff`, `HttpLines.BodyRunsOn`).

## Model

| member | source | states |
|---|---|---|
| Decode.TCPLayering | Packet.cpp:275-300 | over IP, a TCP frame has DNS or HTTP or neither, HTTP only with a positive payload, offsets grow inwards, and the label names the deepest layer |
| Decode.UDPLayering | Packet.cpp:307-329 | over IP, a UDP frame has DNS or DHCP or neither, never HTTP, in the same layering |
| Decode.DecodeLayering | Packet.cpp:177-377 | every decodable frame: ARP excludes IP, at most one of ICMP/TCP/UDP and only under IP, DNS needs TCP or UDP, DHCP needs UDP, HTTP needs TCP and a positive payload, offsets never decrease, label = deepest layer |
| Decode.EthernetIs | Packet.cpp:177-198 | from raw bytes: type 0x0806 in bytes 12 and 13 sets ARP at 14 and nothing else, 0x0800 sets IP at 14, any other type only Ethernet, with their labels |
| Decode.IPIs | Packet.cpp:206-234 | from raw bytes: byte 23 = 1, 6, 17 sets ICMP, TCP, UDP and no other at 14 + 4 * (byte 14 mod 16); any other number leaves IPv4 |
| Decode.UDPIs | Packet.cpp:307-329 | from raw bytes: DNS 8 bytes behind exactly when a port is 53; DHCP there exactly when no port is 53 and the ports are 67 and 68; the label is DNS, DHCP or UDP accordingly |
| Decode.TCPIs | Packet.cpp:275-300 | from raw bytes: DNS or HTTP 4 * (byte 12 of the header / 16) bytes behind: DNS exactly when a port is 53, HTTP exactly when not, a port is 80 and the IP total length leaves a payload; and the payload length |
| Decode.NoPayload | Packet.cpp:604-615 | the payload length is 0 for every frame that is not TCP over IP |
| Decode.HttpPayloadEnd | Packet.cpp:604-615 | the HTTP payload ends at byte 14 + IP total length of the frame, so link padding is outside it |
| Decode.StaleHttp | Packet.cpp:90-134 | decoding over an old HTTP pointer gives a fresh decode except for that pointer, which stays unless the new frame sets it |
| PacketModel.AssignBuilds | Packet.cpp:21-134 | constructors and `operator=` leave an empty packet with no layers but a label, or a full decode but for a stale HTTP pointer, and nothing else |
| PacketModel.AssignCopiesIff | Packet.cpp:90-134 | for every source: `operator=` yields a true copy exactly when an empty source has number 65535 and the target's label, or a decoded one sets its HTTP pointer or agrees with the target's |
| PacketModel.AssignIs | Packet.cpp:90-134 | what `operator=` takes from where: bytes, header and number from the source, layers from its bytes; number 65535 and no layer for an empty source, the target's label then; a stale HTTP pointer from the target otherwise |
| PacketModel.EmptyIs | Packet.cpp:4-19 | the empty packet: no bytes, number 65535, no label, no layer |
| PacketModel.LabelKept | Packet.cpp:126-132 | an empty packet assigned to an ARP packet leaves an empty packet labelled ARP |
| PacketModel.StaleAssignment | Packet.cpp:90-134 | an ARP packet assigned to an HTTP packet keeps a pointer to byte 54 of a frame of 14 bytes |
| PacketModel.PutKeepsDenseIff | PacketPool.cpp:19-27 | storing under a key keeps the keys 1..n exactly when the key is 1..n+1, and n+1 grows the pool by one |
| PacketModel.DropKeepsDenseIff | PacketPool.cpp:45-50 | erasing a stored key keeps the keys 1..n exactly when it is the last |
| PacketModel.PoolOfIsDirect | PacketPool.cpp:19-27 | after any captures: keys 1..n, entry i is a direct decode of the i-th frame (bytes, number mod 65536, all layer offsets, label), the last entry is the newest frame |
| PacketModel.PoolOfIs | Packet.cpp:55-83 | entry i holds all caplen bytes of the i-th frame, its time and lengths, the number i mod 65536 and the layers of the whole frame |
| PacketModel.UnknownNumber | PacketPool.cpp:63-80 | a number that is not in the pool gives the empty packet |
| PacketModel.PoolOfRun | PacketPool.cpp:19-57 | over every run of add and clear the pool is dense and `get(i)` is the i-th frame added since the last clear |
| PacketModel.RemoveKeepsDenseIff | PacketPool.cpp:45-50 | `remove(k)` on a dense pool keeps it dense exactly when k is the last key or out of range |
| PacketModel.RemoveIs | PacketPool.cpp:45-50 | `remove(k)` takes away packet k and no other, and nothing when k is out of range |
| PacketModel.AddPacketIs | PacketPool.cpp:34-38 | `add(pkt)` puts the packet's bytes, header, number and layers under its number and changes no other entry; an empty packet changes nothing |
| PacketModel.AddPacketKeepsDenseIff | PacketPool.cpp:34-38 | `add(pkt)` of a non-empty packet keeps a dense pool dense exactly when 1 <= num <= n+1 |
| PacketModel.NumberIsPlaceIff | include/Packet.h:19 | every stored number tells the packet's place exactly as long as there are fewer than 65536 packets |
| PacketObject.Packet.constructor | Packet.cpp:4-19 | a packet without buffers, number 65535, no layers |
| PacketObject.Packet.FromCapture | Packet.cpp:55-83 | owns a copy of all caplen bytes and of the header, the number mod 65536 and the layers of the bytes; a NULL argument gives an empty packet that keeps its number |
| PacketObject.Packet.Copy | Packet.cpp:21-53 | equals assignment to an empty packet, in fresh buffers |
| PacketObject.Packet.CopyBuffer | Packet.cpp:104-117 | allocates only when there is no buffer, then holds the first caplen source bytes |
| PacketObject.Packet.Assign | Packet.cpp:90-134 | `operator=` in place: self-assignment changes nothing, otherwise the value of `AssignVal`, keeping an existing buffer |
| PacketObject.Packet.DecodeEthernet | Packet.cpp:177-198 | -1 and no change without data, otherwise the whole layer stack of the frame |
| PacketObject.Packet.DecodeIP | Packet.cpp:206-234 | the layer stack from the IP header on |
| PacketObject.Packet.DecodeARP | Packet.cpp:241-250 | sets label and pointer, or returns -1 and changes nothing |
| PacketObject.Packet.DecodeICMP | Packet.cpp:258-267 | sets label and pointer, or returns -1 and changes nothing |
| PacketObject.Packet.DecodeTCP | Packet.cpp:275-300 | the layer stack from the TCP header on: DNS by port 53, HTTP by port 80 with a positive payload length |
| PacketObject.Packet.DecodeUDP | Packet.cpp:307-329 | the layer stack from the UDP header on: DNS by port 53, DHCP by the port pair 67/68 |
| PacketObject.Packet.DecodeDNS | Packet.cpp:333-342 | sets label and pointer, or returns -1 and changes nothing |
| PacketObject.Packet.DecodeDHCP | Packet.cpp:350-359 | sets label and pointer, or returns -1 and changes nothing |
| PacketObject.Packet.DecodeHTTP | Packet.cpp:367-377 | sets label and pointer, or returns -1 and changes nothing |
| PacketObject.Packet.GetL4PayloadLength | Packet.cpp:604-615 | 0 without IP and TCP, else IP total length minus both header lengths |
| PacketPool.PacketPool.constructor | PacketPool.cpp:4-7 | an empty pool |
| PacketPool.PacketPool.Index | PacketPool.cpp:25 | `m_pkts[k]`: the stored object, or a fresh empty one inserted under k |
| PacketPool.PacketPool.AssignAt | PacketPool.cpp:25 | assignment through the reference changes that entry and no other; nothing at all when the packet is assigned to itself |
| PacketPool.PacketPool.Store | PacketPool.cpp:34-38 | `m_pkts[k] = pkt`, for a packet of its own or one that is already stored, puts the assigned value under k and leaves every other packet alone |
| PacketPool.PacketPool.Add | PacketPool.cpp:19-27 | stores the captured frame under 1 + size; does nothing for a NULL header or NULL data; in a dense pool it needs no room in any old buffer and leaves the pool dense |
| PacketPool.PacketPool.AddPacket | PacketPool.cpp:34-38 | stores a non-empty packet, its own or one already stored, under its own number; does nothing for an empty one |
| PacketPool.PacketPool.Remove | PacketPool.cpp:45-50 | erases the number unless it is below 1 or above the size |
| PacketPool.PacketPool.Clear | PacketPool.cpp:52-56 | the pool becomes empty |
| PacketPool.PacketPool.Get | PacketPool.cpp:63-68 | the stored packet itself, or a temporary empty packet for an unknown number |
| PacketPool.PacketPool.GetLast | PacketPool.cpp:75-80 | the packet whose number is the size, or a temporary empty one |
| PacketPool.PacketPool.GetSize | PacketPool.cpp:87-90 | the number of stored packets |
| PacketPool.PacketPool.IsEmpty | PacketPool.cpp:97-102 | true exactly for the empty pool |
| PacketPool.PacketPool.Perform | PacketPool.cpp:19-57 | one pool object through any list of add and clear: every assignment meets a fresh packet, and the objects are the direct decodes of the frames since the last clear, numbered 1..n |
| PacketList.MessageShows | kendoUIDlg.cpp:2515-2535 | a packet message for number k adds exactly the k-th captured frame, if the filter selects it; number 0 adds nothing |
| PacketList.RowsOfPrefix | kendoUIDlg.cpp:2515-2535 | rows already shown never depend on packets captured later |
| PacketList.RowsOfIsMatching | kendoUIDlg.cpp:2515-2535 | below 65536 packets the list built message by message is the matching subsequence in capture order |
| PacketList.UnfilteredRows | kendoUIDlg.cpp:2515-2535 | without a filter each message adds one row, except every 65536th |
| PacketList.RedrawAll | kendoUIDlg.cpp:822-831 | rows for entries 1..n; returns the pool size, -1 for an empty pool |
| PacketList.RedrawFiltered | kendoUIDlg.cpp:839-856 | rows for the entries 0..n-1 whose label is the filter; returns how many, -1 for an empty pool or filter |
| PacketList.RedrawListsAll | kendoUIDlg.cpp:822-831 | the unfiltered redraw lists every captured packet in order |
| PacketList.FilteredRedrawMissesLast | kendoUIDlg.cpp:839-856 | the filtered redraw is the matching subsequence of all packets but the newest |
| PacketList.FilteredRedrawAgreesIff | kendoUIDlg.cpp:839-856 | it equals the incrementally built list exactly when the newest packet does not match |
| PacketList.RedrawDropsArp | kendoUIDlg.cpp:839-856 | one ARP packet and the filter "ARP": the list shows it, the filtered redraw drops it |
| PacketList.MatchingListed | kendoUIDlg.cpp:822-856 | a redraw of the first n packets lists each matching one of them once and no other |
| PacketList.RowsListed | kendoUIDlg.cpp:2515-2535 | d messages list a matching packet k below 65536 once for each of the numbers k, k+65536, .. up to d, and no other packet |
| PacketList.MatchingIsRowsIff | kendoUIDlg.cpp:822-856 | a redraw of the first n packets is the list after d messages exactly when it shows each matching packet as often as they did, for any number of packets |
| PacketList.RowsAgreeIff | kendoUIDlg.cpp:2515-2535 | two filters show the same list exactly when they agree on every packet announced so far |
| PacketList.IPFilterMatchesNothing | kendoUIDlg.cpp:555-573 | the filter entry "IP" lists nothing, for any capture |
| PacketList.FilterSelects | kendoUIDlg.cpp:555-573 | which frames each of the ten entries of the filter list selects, by Ethernet type, protocol number, ports and payload |
| PacketList.NothingToShow | kendoUIDlg.cpp:754-757 | a message for a packet that is gone adds no row, whatever the filter |
| PacketList.LabelIsNotIP | Packet.cpp:206-234 | no frame is labelled "IP" |
| Session.PoolInvAlways | PacketPool.cpp:19-57 | every run, unguarded: the pool is what the frames since its last clear make it, and every row refers to an entry that still exists |
| Session.StartStep | kendoUIDlg.cpp:290-342 | Start: with an adapter, no handle held and a successful open exactly one live thread with a new handle and dump, and an empty pool and list; otherwise nothing |
| Session.OpenStep | kendoUIDlg.cpp:2865-2902 | Open: nothing for another extension, the open file's name or an empty path; the handle is lost when opening fails; else exactly one thread that reads the file from its start, and an empty pool and list |
| Session.StopEnablesExitIff | PacketCatcher.cpp:147-151 | Stop lets exactly the thread on the held handle leave, beside those that could already, and changes nothing else |
| Session.StopEndsCapture | PacketCatcher.cpp:147-151 | in a safe session the running thread can leave after Stop, whichever handle it is on |
| Session.CloseStep | kendoUIDlg.cpp:2909-2929 | Close empties list and pool and forgets the name once something was opened; handle, threads, messages and dumps stay |
| Session.FilterSteps | kendoUIDlg.cpp:375-405 | selecting changes the selection alone, applying a filter the rows alone, clearing resets the selection |
| Session.PacketStep | PacketCatcher.cpp:186-212 | a packet in thread i: last in the pool, in that thread's own dump if it is live and in no other, its number mod 65536 posted last; no other thread changes |
| Session.ExitStep | PacketCatcher.cpp:169-177 | thread i leaves and no other, WM_TEXIT is posted last |
| Session.HandleInvStep | PacketCatcher.cpp:53-212 | each step keeps the hand-over invariant between handle, dumper, thread and queued WM_TEXIT, unless a file is opened with a handle held |
| Session.HandleInvAlways | PacketCatcher.cpp:53-212 | that invariant holds in every reachable state |
| Session.HandleSafety | PacketCatcher.cpp:115-177 | in every run: the handle is held exactly while one thread runs on it or one WM_TEXIT is queued; never two threads; WM_TEXIT is the last message of its session; no message outlives its session; closeAdapter never closes a handle in use |
| Session.OpenIsSafeIff | PacketCatcher.cpp:97-108 | choosing a file leaves a safe state exactly when no handle is held or the file is refused (extension, same name, empty path) |
| Session.StopThenOpenBreaks | kendoUIDlg.cpp:349-368 | a concrete run: Start, Stop, Open, thread exit, after which WM_TEXIT closes the handle a second thread is using |
| Session.QueueStepIff | kendoUIDlg.cpp:2909-2929 | each step keeps the queued numbers the last ones of the pool exactly unless it closes an open file while packet messages wait |
| Session.QueueInvAlways | PacketCatcher.cpp:186-206 | in every run, from any state in which no packet message waits, the queued numbers are the last ones of the pool, in order, as long as no such close is made |
| Session.CloseStrandsMessage | kendoUIDlg.cpp:2877-2929 | a concrete run: Open, one packet, Close, after which pool and list are empty and the message of packet 1 is still queued |
| Session.DisplayStepIff | kendoUIDlg.cpp:375-405 | each step, whatever it is, keeps a list that is in step with the messages in step exactly under the guard: close as above, a filter change that agrees on the packets announced, a filter redraw that fits, a clear with nothing waiting and fewer than 65536 packets |
| Session.DisplayInvAlways | kendoUIDlg.cpp:2515-2549 | in every run, from any point where pool and list are empty or a fitting redraw was made, the list stays in step under that guard |
| Session.InStepAtStart | PacketCatcher.cpp:8-23 | the start of every run is such a point |
| Session.IncrementalDisplay | kendoUIDlg.cpp:2515-2535 | in these runs, redraws and filter changes included, the list is the matching subsequence of the packets whose messages were handled, below 65536 packets |
| Session.NothingLostIff | PacketCatcher.cpp:186-206 | in these runs, without a filter, numbers shown followed by numbers queued are exactly 1..n, exactly as long as n < 65536 |
| Session.ClearSettlesIff | kendoUIDlg.cpp:396-405 | clearing the filter, whatever was shown before, puts the list in step exactly when no packet message is waiting and n < 65536 |
| Session.ClearListsTwice | kendoUIDlg.cpp:396-405 | a concrete run: Start, one packet, Clear, and then its message, after which the packet is listed twice |
| Session.FilterSettlesIff | kendoUIDlg.cpp:375-390 | applying a filter, whatever was shown before, puts the list in step exactly when the redraw lists each matching packet as often as the messages did |
| Session.FilterInStepIff | kendoUIDlg.cpp:375-390 | below 65536 packets: exactly when the newest packet does not match (nothing waiting), or no waiting packet but the newest matches |
| Session.SelectInStepIff | kendoUIDlg.cpp:2515-2535 | choosing another filter keeps the list in step exactly when both agree on every packet announced so far |
| Session.DumpStepIff | kendoUIDlg.cpp:2909-2929 | each step keeps dump, file and pool together exactly unless it closes an open file after a capture while a dumper or a thread is left |
| Session.DumpInvAlways | PacketCatcher.cpp:186-203 | in every run, from any state without a handle, as long as no such close is made, a live session has dumped what it captured, and an offline one has captured what it read |
| Session.DumpIsPool | PacketCatcher.cpp:186-203 | at every step boundary of a live session the dump records are the pool entries 1..n, in order |
| CaptureApp.CaptureApp.constructor | PacketCatcher.cpp:8-23 | the program starts with no handle, no dumper, an empty pool and an empty list |
| CaptureApp.CaptureApp.OpenLive | PacketCatcher.cpp:53-90 | refuses a negative index or a held handle; on success a new handle and its dumper |
| CaptureApp.CaptureApp.OpenFile | PacketCatcher.cpp:97-108 | refuses an empty path only; overwrites the handle even when opening fails; leaves the dumper alone |
| CaptureApp.CaptureApp.CloseAdapter | PacketCatcher.cpp:115-129 | releases handle and dumper, true exactly when a handle was held |
| CaptureApp.CaptureApp.StartCapture | PacketCatcher.cpp:136-140 | starts a thread with the current handle and dumper, if there is a handle |
| CaptureApp.CaptureApp.StopCapture | PacketCatcher.cpp:147-151 | breaks the loop on the current handle, if there is one |
| CaptureApp.CaptureApp.Record | PacketCatcher.cpp:190-206 | the pool object takes the frame into a fresh packet, and the number returned is that of its last packet |
| CaptureApp.CaptureApp.PacketHandler | PacketCatcher.cpp:186-212 | adds the frame to the shared pool object, dumps it in live mode, posts the number of the newest packet; keeps pool, rows and hand-over valid |
| CaptureApp.CaptureApp.ThreadExit | PacketCatcher.cpp:169-177 | the thread ends and posts WM_TEXIT |
| CaptureApp.CaptureApp.OnClickedStart | kendoUIDlg.cpp:290-342 | without a selected adapter or when opening fails nothing is cleared; otherwise list and pool are emptied and a live capture starts |
| CaptureApp.CaptureApp.OnClickedStop | kendoUIDlg.cpp:349-368 | only breaks the loop; the handle stays held |
| CaptureApp.CaptureApp.OnMenuFileOpen | kendoUIDlg.cpp:2865-2902 | a file with another extension or the name of the open file is turned down; when the file opens, list and pool are emptied and an offline capture starts; valid afterwards if no handle was held |
| CaptureApp.CaptureApp.OnMenuFileClose | kendoUIDlg.cpp:2909-2929 | empties list and pool once a capture or file has been opened |
| CaptureApp.CaptureApp.SelectFilter | kendoUIDlg.cpp:555-573 | choosing an entry of the filter list changes the selection and nothing else |
| CaptureApp.CaptureApp.OnClickedFilter | kendoUIDlg.cpp:375-390 | with a selection, the list becomes the filtered redraw |
| CaptureApp.CaptureApp.OnClickedClear | kendoUIDlg.cpp:396-405 | no selection, and the list becomes the unfiltered redraw |
| CaptureApp.CaptureApp.OnPktCatchMessage | kendoUIDlg.cpp:2515-2535 | a positive number appends the row of that packet, if there is no filter or its label is the filter |
| CaptureApp.CaptureApp.Deliver | kendoUIDlg.cpp:2515-2549 | the oldest message is taken off the queue and handled |
| CaptureApp.CaptureApp.Arrive | PacketCatcher.cpp:186-212 | a frame handed over in a buffer of its own is that thread's packet step |
| CaptureApp.CaptureApp.Perform | kendoUIDlg.cpp:290-405 | one action of any kind, taken by the object, is the step of the state machine, and keeps it valid unless it opens a file with a handle held |
| CaptureApp.CaptureApp.Run | PacketCatcher.cpp:53-212 | the object, its pool in one heap, follows every run of the state machine; if files are only opened without a handle it ends in a safe state |
| Replay.CopyFile | PacketDumper.cpp:49-56 | the chunked copy writes every byte once and in order, for any length |
| Replay.SaveAs | PacketDumper.cpp:33-56 | copies the dump in chunks, while the session runs or after WM_TEXIT has closed it; every guarded run that opens the copy and reads it to its end has the live session's pool: bytes, numbers, layers, labels, and keeps it after the reading thread has left |
| Replay.AllDumpedAlways | PacketCatcher.cpp:115-203 | from any point of a live session until something empties the pool, through Stop, thread exit and WM_TEXIT, its dump holds exactly the pool's packets |
| Replay.SavedAfterExit | kendoUIDlg.cpp:349-368 | a concrete run: Start, one packet, Stop, thread exit, WM_TEXIT; handle and dumper are gone and the dump can be saved |
| Replay.ReplayRebuilds | PacketDumper.cpp:33-56 | the same for any file with the records of that dump |
| Replay.ReplayRun | kendoUIDlg.cpp:2877-2894 | such an offline run exists for every file and reads all of it |
| DhcpOptions.PrintRouters | kendoUIDlg.cpp:2222-2243 | option 3: the addresses 5 bytes apart, the cursor 5 bytes further for each |
| DhcpOptions.PrintServers | kendoUIDlg.cpp:2246-2267 | option 6: the addresses 4 bytes apart |
| DhcpOptions.PrintText | kendoUIDlg.cpp:2270-2291 | options 12 and 60: exactly the bytes the length announces, the last of which stays in the scratch string |
| DhcpOptions.PrintOption | kendoUIDlg.cpp:2069-2313 | one turn of the switch: the nodes printed for the option, the next cursor and the scratch string, for all twelve cases |
| DhcpOptions.PrintOptions | kendoUIDlg.cpp:2067-2315 | the whole loop: the nodes of every option visited, ending on the 255 that stops it |
| DhcpOptions.AdvanceIs | kendoUIDlg.cpp:2069-2313 | how far options 0, 1, 3, 6, 50, 51, 53, 54, 61 and all others move the cursor, by number |
| DhcpOptions.PrintedIs | kendoUIDlg.cpp:2069-2313 | which bytes options 1, 12, 50, 51, 53, 54, 60, 61 and all others show, by number, and what they leave in the scratch string |
| DhcpOptions.AddressesAre | kendoUIDlg.cpp:2222-2267 | option 3 reads its addresses 5 bytes apart, option 6 reads them 4 bytes apart, length / 4 of them rounded up |
| DhcpOptions.WalkIs | kendoUIDlg.cpp:2067-2315 | the walk goes from option to option and stops on the first 255 it meets |
| DhcpOptions.AdvanceIsTlvIff | kendoUIDlg.cpp:2069-2313 | an option's own advance equals the generic 2 + length (1 for a pad) exactly under its length condition: 1 for 53; 4 for 1, 3, 50, 51, 54; 7 for 61 of type 1; a multiple of 4 for 6; any length otherwise |
| DhcpOptions.ConformingIsReadable | kendoUIDlg.cpp:2069-2313 | an option that meets its condition is read inside the area the generic rule gives it |
| DhcpOptions.WalkRefinesTlv | kendoUIDlg.cpp:2067-2315 | on any area of conforming options ended by 255, the loop stays inside and visits exactly the places the generic rule of section 2 of RFC 2132 visits |
| DhcpOptions.WalkRefinesTlvIff | kendoUIDlg.cpp:2067-2315 | on areas both can walk, they visit the same places exactly when every option meets its condition |
| DhcpOptions.OptionRoundTrip | kendoUIDlg.cpp:2069-2313 | one encoded option is consumed exactly and its value bytes are the ones shown |
| DhcpOptions.DhcpRoundTrip | kendoUIDlg.cpp:2067-2315 | any list of valid options and pads followed by 255: same tags, lengths and values in order, stops on that 255, visits the running sums of the sizes |
| DhcpOptions.OffsetsEnd | kendoUIDlg.cpp:2067-2315 | the sizes of the options add up to the place of the 255: every byte belongs to one option |
| DhcpOptions.ShownInFullIff | kendoUIDlg.cpp:2069-2313 | which options show their whole value: not the lease time (first byte only), nor the default case unless empty; a client identifier of another type only when the scratch string happens to be the rest of it |
| DhcpOptions.NothingLeftIff | kendoUIDlg.cpp:2155-2156 | the text appended to such a client identifier is empty exactly when the boot file name is empty and no text option with a value came before |
| DhcpOptions.ForeignText | kendoUIDlg.cpp:2155-2156 | the host name "ab" and a client identifier of type 2: the b is shown behind the type |
| DhcpOptions.TwoRouters | kendoUIDlg.cpp:2222-2243 | two routers: the second address is read one byte late and the walk goes on one byte late |
| DnsName.CopyString | kendoUIDlg.cpp:2682 | strcpy: the string, its NUL, and nothing behind it |
| DnsName.DotInPlace | kendoUIDlg.cpp:2692-2700 | the loop over the counts: every byte but letters, digits and '-' becomes a dot, nothing behind the NUL changes |
| DnsName.ShiftInPlace | kendoUIDlg.cpp:2703-2711 | the loop that moves the name forward by one place, its NUL included |
| DnsName.TranslateInBuffer | kendoUIDlg.cpp:2680-2712 | in place: the dotted name without its leading count, as a C string; no index beyond strlen of the input is touched |
| DnsName.TranslateString | kendoUIDlg.cpp:2715-2742 | the string overload: same length as the input, the shift pulls a NUL into its last place |
| DnsName.TranslateIs | kendoUIDlg.cpp:2680-2712 | byte by byte: a first byte that is no letter, digit or '-' is dropped; each other byte stays if it is one of these and becomes 46 if not |
| DnsName.TranslateTextIs | kendoUIDlg.cpp:2715-2742 | the string overload gives the same bytes and a NUL for the dropped one, so that the length is kept |
| DnsName.OverloadsAgree | kendoUIDlg.cpp:2680-2742 | for every NUL-terminated input the string version cut at its first NUL is the buffer version |
| DnsName.EncodeHasNoNul | kendoUIDlg.cpp:2680-2712 | an encoded name holds no NUL, so strlen sees all of it |
| DnsName.DottedEncodeIff | kendoUIDlg.cpp:2693-2700 | every count becomes a dot and every label stays what it is exactly when no label length is 45 or 48..57 and all bytes are letters, digits, '-' or dots |
| DnsName.NameRoundTripIff | kendoUIDlg.cpp:2680-2712 | for all labels of 1 to 63 bytes without NUL: translating the encoded name gives the labels joined by dots exactly when no label length is 45 or 48..57 and all bytes are letters, digits, '-' or dots |
| DnsName.NameLabelsRecoveredIff | kendoUIDlg.cpp:2680-2712 | for all such labels: splitting the result at its dots recovers them exactly when no length is 45 or 48..57 and all bytes are letters, digits or '-' |
| DnsName.CountKept | kendoUIDlg.cpp:2680-2712 | a label of 45 bytes shows its count as a leading '-' |
| DnsName.UnderscoreLost | kendoUIDlg.cpp:2680-2712 | the label _a is shown with a dot for its underscore |
| DnsQuestions.PrintQuestion | kendoUIDlg.cpp:1630-1647 | one turn: translated name, type and class, cursor behind them |
| DnsQuestions.PrintDNSQuery | kendoUIDlg.cpp:1618-1652 | the loop shows each question in order; returns bytes consumed + 1, or -1 without a pointer |
| DnsQuestions.QuestionAt | kendoUIDlg.cpp:1630-1647 | an encoded question is read back exactly and consumed exactly |
| DnsQuestions.QuestionsRoundTripIff | kendoUIDlg.cpp:1618-1652 | any encoded question list, whatever surrounds it: reads stay inside, the cursor ends at its end, and names, types and classes are all exact exactly when every name is one that translates back |
| DnsQuestions.CursorAtQuestion | kendoUIDlg.cpp:1630-1647 | the cursor at question k is the sum of the first k encoded sizes |
| DnsPointers.Is0xC0PointerInName | kendoUIDlg.cpp:2818-2837 | -2 for NULL, -1 when no 0xC0 stands before the NUL, else the position of the first |
| DnsPointers.NextTerminates | kendoUIDlg.cpp:2788-2849 | following one pointer shortens the remaining chain by exactly one |
| DnsPointers.BackwardTerminates | kendoUIDlg.cpp:2788-2849 | if every pointer reached targets a place before the name holding it, the expansion ends, within as many hops as the start position |
| DnsPointers.TerminatesIff | kendoUIDlg.cpp:2788-2849 | the recursion ends exactly when no hop leaves the memory and no name is met twice |
| DnsPointers.ShortChain | kendoUIDlg.cpp:2788-2849 | a chain without a repeat has fewer hops than the memory has bytes |
| DnsPointers.ExpansionIs | kendoUIDlg.cpp:2788-2849 | the text is the bytes in front of each pointer, hop by hop, followed by the translation of the name the chain ends at |
| DnsPointers.ChainShownIff | kendoUIDlg.cpp:2788-2849 | along the code's own chain of pointers to an encoded name: the text is the labels' dotted name exactly when no hop has labels of its own and the last labels are plain |
| DnsPointers.LabelledHop | kendoUIDlg.cpp:2797-2811 | the name b.a with its last label behind a pointer is shown as a count, "b" and "a" |
| DnsStandard.LabelsEncoded | kendoUIDlg.cpp:2818-2837 | stepping over labels by their counts, as section 4.1.4 of RFC 1035 does, undoes their encoding |
| DnsStandard.StdHopIs | kendoUIDlg.cpp:2797-2800 | the standard's hop in numbers, which the code's is compared with: counts below 64, a NUL or a byte from 192 up at the end, an offset of 14 bits |
| DnsStandard.ScanEnds | kendoUIDlg.cpp:2818-2837 | the code's scan meets no NUL and no 0xC0 before the standard's counts end |
| DnsStandard.HopIsStdIff | kendoUIDlg.cpp:2797-2800 | from any name the code goes where the standard's 14-bit offset goes exactly when there is no pointer or the offset is below 128 |
| DnsStandard.FollowsIff | kendoUIDlg.cpp:2788-2849 | over any number of pointers the code meets the standard's names exactly when every offset is below 128 |
| DnsStandard.StandardNameShownIff | kendoUIDlg.cpp:2788-2849 | every compressed name of the standard: the code goes through its names and shows its dotted name exactly when every offset is below 128, no label stands in front of a pointer, and the last labels are plain |
| DnsStandard.PointerChainShowsNameIff | kendoUIDlg.cpp:2788-2849 | any number of pointer-only hops: the full name is reached and shown exactly when every offset is below 128 and the labels are plain |
| DnsStandard.FarPointer | kendoUIDlg.cpp:2799 | a pointer to offset 232, where the name "a" stands: the code reads in front of the message and shows nothing |
| HttpLines.PrintLines | kendoUIDlg.cpp:2348-2361 | the nested loops: the lines, each with the \r\n mark; cursor minus start equals count at every outer turn |
| HttpLines.PrintHTTP2TreeCtrl | kendoUIDlg.cpp:2328-2363 | -1 for an empty packet, no HTTP pointer or no parent; else the caption by port 80 and the lines of the payload |
| HttpLines.CaptionIs | kendoUIDlg.cpp:2338-2345 | destination port 80 makes it a request, otherwise the source port is 80 and it is a response |
| HttpLines.Decompose | kendoUIDlg.cpp:2348-2361 | every payload is a list of complete lines and a rest without an inner CR |
| HttpLines.RestWalk | kendoUIDlg.cpp:2348-2361 | a rest sends the cursor past the end of the payload, to the next CR |
| HttpLines.HttpSplitIff | kendoUIDlg.cpp:2348-2361 | for every payload: its complete lines are printed, and the walk ends exactly at its end if and only if there is no rest |
| HttpLines.HttpRoundTrip | kendoUIDlg.cpp:2348-2361 | a payload of well-formed lines prints as exactly these lines, needing and reading no byte behind it |
| HttpLines.HttpFrame | Packet.cpp:206-300 | for a whole frame: the caption is never empty, and well-formed lines end at byte 14 + IP total length, independent of the padding |
| HttpLines.HttpFrameIff | Packet.cpp:206-300 | for every payload of a frame: the walk ends at byte 14 + IP total length if and only if the payload ends with a complete line; otherwise it needs a CR behind it |
| HttpLines.BodyRunsOn | kendoUIDlg.cpp:2348-2361 | a payload of a line and a body: the body is printed as a line that takes in the byte behind the payload |
| HexDump.PrintPadding | kendoUIDlg.cpp:919-930 | the blanks of the last row complete its columns, tab included |
| HexDump.PrintBytes | kendoUIDlg.cpp:873-940 | the two-loop incremental printer prints the rows of the packet, one for every 16 bytes |
| HexDump.PrintEditCtrlPacketBytes | kendoUIDlg.cpp:863-945 | -1 and no text for an empty packet, else the dump of its captured bytes |
| HexDump.RowLayoutIff | kendoUIDlg.cpp:873-940 | every row, padded or not, has exactly one tab; its ASCII column starts at index 56 exactly for offsets below 65536 |
| HexDump.RowFrame | kendoUIDlg.cpp:873-940 | a row at an offset below 65536: four digits of the offset, colon, blank, the tab at index 30, a blank at 55, CR and LF at its end |
| HexDump.RowCell | kendoUIDlg.cpp:880-887 | each of 16 places of a row: two upper-case digits and a blank at index 6 + 3i (one more from the ninth on), or three blanks |
| HexDump.RowAscii | kendoUIDlg.cpp:900-937 | byte i of a row at index 56 + i: itself if it is in 0-9, A-Z or a-z, a dot otherwise |
| HexDump.RowAt | kendoUIDlg.cpp:873-940 | row k starts at character 74 * k and shows the bytes from 16 * k on |
| HexDump.ByteShown | kendoUIDlg.cpp:873-940 | for every byte n of a packet of up to 65536: at which characters of the text its digits and its ASCII character stand |
| HexDump.OffsetReadBack | kendoUIDlg.cpp:876-880 | the digits in front of a row, however many, are the offset |
| HexDump.DumpLength | kendoUIDlg.cpp:873-940 | up to 65536 bytes the text is 74*(n/16) long, plus 58 + n mod 16 for a partial row |
| HexDump.RowReadBack | kendoUIDlg.cpp:873-940 | the hex columns of one printed row give back its bytes |
| HexDump.DumpReadBack | kendoUIDlg.cpp:863-945 | reading the hex columns of the printed text gives back the packet, for any length |

## Left out

- Locking: the map and the controls are shared by two threads without a lock; each handler and each call of `packet_handler` is one atomic step here, and data races are not modelled.
- Windows and WinPcap: opening a handle succeeds or fails by a parameter, `pcap_dump_open` succeeds, a dump is an append, the offline loop reads the records in order; write buffering, the 0.5 s sleep, the limit of the message queue and a failing `PostMessage` are not modelled.
- User interface: windows, menus, button states, fonts, colours, status bar, the tree and byte views that a handler clears. What a theorem over runs needs of the user's actions is its guard (`HandleGuard`, `QueueGuard`, `DisplayGuard`, `DumpGuard`), and the step lemmas prove these guards exact.
- List rows hold the packet they were made from and the number of its pool entry; the text of time, MAC and IP columns is left out.
- `Packet` buffers: `malloc` succeeds, freeing is not modelled, and a `Header` is a value that is copied with its packet.
- PacketObject.Packet.Assign: requires that an existing buffer is large enough; with a smaller one the source's `memcpy` runs past it, which has no defined result to model. A pool of captures never gets there (`PacketPool.PacketPool.Perform`).
- PacketPool.PacketPool.AssignAt: inherits that capacity requirement for the entry it overwrites.
- PacketPool.PacketPool.Store: inherits that capacity requirement.
- PacketPool.PacketPool.AddPacket: inherits that capacity requirement.
- PacketPool.PacketPool.Add: inherits it only for a pool with a gap, where 1 + size is already taken.
- PacketModel.AssignCopiesIff: speaks of the value that results, not of the room in an existing buffer.
- `PacketPool.PacketPool.Get`: in the source an unknown number yields a reference to a temporary that is already destroyed, which every filtered redraw reads at 0; the model hands back a live empty packet.
- `PacketPool.PacketPool.GetLast`: the same for an empty pool or one with a gap.
- `DnsStandard.StandardNameShownIff`: labels in front of a pointer hold no dot, and no label of the name holds a NUL or the byte 0xC0, which the code cannot tell from its marks; letters, digits, '-' and '_' are covered.
- `DnsPointers.GetNameInDNS`: the prefix in front of a pointer is copied without a terminator in the source; the model takes exactly the bytes copied, cutting nothing off and adding nothing.
- Characters from 128 up count as not alphanumeric, and the counted string overload is called with the C locale.
- `DhcpOptions.PrintOptions`: starts behind the magic cookie, with the boot file name in the scratch string; the fixed DHCP fields in front of it are left out, and so are the captions of tags and of message types.
- Text lines are the bytes handed to the control; what a control does with a NUL inside them is left out.
- `translateData`, which has no caller; `printDNSResourceRecord` and the DNS tree past the question section; the type and class name tables; bit-field getters; address formatting; directories and the cache menu.
