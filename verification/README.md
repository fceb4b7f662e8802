# A verified model of libads

libads is a C client for Beckhoff's ADS protocol over TCP, with an example
server.  This project models its packet reader and writer, its transactions, its
connection cache, its example server, its symbol-table macros and its address
functions in Dafny, and proves what they do over every input and every run.

`dafny verify dfyconfig.toml` checks all of it.

## How to read it

| file | models |
|---|---|
| `Bytes.dfy`, `AdsH.dfy` | little-endian words, stores into buffers, the packed structures, the two records `ADSInterface` and `ADSConnection` |
| `Kernel.dfy` | the operating system as the program sees it |
| `AdsIo.dfy`, `Framing.dfy` | `src/ads_io.c`, and what its calls do to a byte stream |
| `Requests.dfy`, `Ads.dfy`, `Outcomes.dfy`, `Replies.dfy` | the requests and transactions of `src/ads.c`, what their return codes say, and the replies of any device |
| `AdsServer.dfy`, `EndToEnd.dfy` | `examples/ADSserver.c`, and a request answered by it |
| `Runs.dfy`, `Alignment.dfy`, `Lagging.dfy`, `ServerRuns.dfy` | whole runs of a client and a server, which reply each call gets in them, and what it makes of it |
| `Program.dfy`, `Executions.dfy` | the two programs on their two sockets, and why everything they do is such a run |
| `Cache.dfy`, `CacheRuns.dfy`, `AdsConnect.dfy`, `AdsApi.dfy` | the connection list of `src/ads_connect.c` and `src/AdsAPI.c` |
| `SymbolTable.dfy`, `NetIdText.dfy`, `LocalAddress.dfy` | the symbol macros, NetIds as text, the local address |

Functions that change records, buffers or globals are methods over classes and
arrays, with the loops of the source.  Each is proved equal to a function of the
state before it (`Read`, `Write`, `Exchange`, `Decode...`, `ReplyImage`, `Serve`,
`Apply`, `Parsed`, `Me`, `Local`), and the lemmas are about those functions.

The operating system is a value.  A descriptor has a finite list of events still
to come; each is a byte, a shut-down, or an error of `select` or `recv`, after a
number of microseconds.  `select` spends its `timeval` on that wait, as Linux
does, so timeouts are not assumed: they follow from the waits and the budget.
`send` takes all bytes, fewer, or fails, as a list of outcomes says.  What
`socket`, `connect`, `setsockopt` and `getifaddrs` do is a parameter.

The layout is that of a little-endian 64-bit host: `unsigned long` has 8 bytes,
`int` has 4.

## What the code does against its own intent

Each of these is kept as the code has it, with the exact condition proved and, next
to it, an input that shows it.

* A timeout in milliseconds lasts that long exactly when it is a multiple of
  1000, because the rest is scaled by 1000000 instead of 1000
  (`Framing.BudgetExact`; 1500 ms in `Framing.FractionLastsLonger`).
* `_ADSReadPacket` is documented to return -3 and -4 for a missing or flagged
  interface but returns -12 and -11, which the translator reports as success.
  Behind a successful write they cannot occur (`Outcomes.ExchangeCodes`).
* A reply longer than 8192 bytes carries error `0xe`, and the four calls that look at
  the reply's command return 0 for it (`Outcomes.ReadSucceedsIff` and the lemmas
  beside it; `Outcomes.OversizedSucceeds` with a packet of 9000 bytes).
* `ADSwriteBytes` compares a signed count with a `size_t`.  Negative codes pass, and
  a timeout is then judged by the result word of the reply before
  (`Outcomes.WriteSucceedsIff`, `Outcomes.WriteTimeout`).  On a fresh connection a
  write that gets no reply reports success (`Outcomes.FreshWriteSucceeds`).
* `ADSwriteControl` judges every failed read by the error word of the reply before
  (`Outcomes.ControlSucceedsIff`, `Outcomes.ControlTimeout`; the same fresh connection
  in `Outcomes.FreshWriteSucceeds`).
* `ADSwriteControl` fixes the packet length before it adds its data, so the data is
  not sent, and `dataLength` disagrees with the packet exactly when there is data
  (`Requests.FrameEquation`; one byte in `Requests.ControlDataMissing`).
* A call that fails to read leaves its reply behind for the next call.  Replies are
  then behind their calls for good (`Alignment.LagNeverShrinks`; for any two requests
  in `Lagging.LagHappens`).  A lagging read accepts the wrong data or reports success
  without any, and the other calls report success (`Lagging.LaggingRead`,
  `Lagging.LaggingReadWrite`, `Lagging.LaggingCalls`).
* A failed connect does not close its descriptor
  (`CacheRuns.DescriptorConservation` counts them; one in `CacheRuns.FailedConnectLeaks`).
* `AdsPortClose` frees the list and keeps the pointer, so it frees it again exactly
  when nothing was connected since the last effective close
  (`CacheRuns.DoubleFreeIff`; a connect and two closes in `CacheRuns.ClosedTwice`).
* `ADSsocketDisconnect` tests the address of the descriptor, not the descriptor, so
  its error result cannot occur (`AdsConnect.ConnectionList.SocketDisconnect`).
* The two local-address functions agree exactly when there is an IPv4 interface that is
  not "lo" and no interface before the first such one is without an address
  (`LocalAddress.FindersAgree`).  Without an eligible interface one fails and the other
  invents 127.0.0.1.1.1 (`LocalAddress.OnlyLoopback`); at an interface without an
  address one dereferences NULL and the other goes on (`LocalAddress.AddresslessFirst`).

## Model

| member | source | states |
|---|---|---|
| `Bytes.WordBytes` | src/ads.h:47-65 | four bytes are those of a word if and only if the word is their sum, weighted by 1, 256, 65536 and 16777216 |
| `Bytes.HalfWordBytes` | src/ads.h:47-65 | the same for two bytes |
| `Bytes.ConversionsAreModular` | src/ads.c:436 | the conversions between integer types keep the number modulo the size of the type |
| `AdsH.HeaderRoundTrip` | src/ads.h:47-65 | the packed view of any buffer that starts with an encoded header shows every field that was encoded |
| `AdsH.HeaderDetermined` | src/ads.h:47-65 | conversely the fields shown determine all 38 bytes, so a header stored field by field is the encoded one |
| `AdsH.ADSInterface.constructor` | src/ads.c:235-248 | a new interface waits forever and has no error flag |
| `AdsH.ADSConnection.constructor` | src/ads.c:263-272 | a new connection has two separate zeroed buffers and invokeId 0 |
| `AdsIo.ReadByte` | src/ads_io.c:129-191 | exactly the byte, timeout, shut-down or error that the next event and the budget give, with the budget left; no other array element changes |
| `AdsIo.FillHeader` | src/ads_io.c:251-264 | six bytes are stored, or the read halts at the first one that does not come |
| `AdsIo.FillRest` | src/ads_io.c:265-284 | the loop whose bound is re-read from the buffer stops exactly at the length that arrived in the header |
| `AdsIo.Fill` | src/ads_io.c:238-284 | both loops: all bytes of the packet and the clamped buffer, or the point where they stop; one budget for all of them |
| `AdsIo.LengthStable` | src/ads_io.c:265-270 | storing the rest of the packet, clamped, never changes the length field the loop depends on |
| `AdsIo.Patch` | src/ads_io.c:300-304 | the patch of an oversized packet writes bytes 2..5 and the eight bytes 38..45 |
| `AdsIo.ReadPacket` | src/ads_io.c:206-316 | result, error, buffer, rest of the input and time spent are those of the specification `ReadIface`, for every interface, buffer and input |
| `AdsIo.ReadCases` | src/ads_io.c:251-284 | every read either gets a complete packet in time or stops at the first byte that does not come |
| `AdsIo.WritePacket` | src/ads_io.c:52-115 | the bytes the length field covers are sent once; the result is 1 only if all were accepted |
| `Framing.ReadTakes` | src/ads_io.c:206-316 | a read takes a prefix of the stream, loses and repeats nothing, returns its length when it succeeds, and drops it when it fails |
| `Framing.BufferExact` | src/ads_io.c:265-309 | every byte of the buffer after a packet of any size: prefix, last byte at 8191, patched bytes, untouched bytes |
| `Framing.ReadFramed` | src/ads_io.c:265-309 | a read that starts at a packet delivers it (truncated and flagged when it is too long) or stops inside it |
| `Framing.ReadPrefix` | src/ads_io.c:238-316 | a read depends only on the events it takes: without the ones behind them it takes the same bytes, leaves the same buffer and succeeds exactly when it did |
| `Framing.WriteOutcome` | src/ads_io.c:52-115 | a write puts a prefix of the packet on the wire and returns 1 if and only if that is all of it, 0 with the error of `send` otherwise, and -4 without sending on a flagged interface |
| `Framing.BoundaryAlignment` | src/ads_io.c:251-284 | while failed reads take no byte, the reads that succeed deliver the packets in order and the stream stays on a boundary |
| `Framing.PartialFailure` | src/ads_io.c:269-284 | a failed read leaves the stream exactly as many bytes into the packet as it took; the next read is on a boundary if and only if that is none |
| `Framing.WriteAllSends` | src/ads_io.c:83-114 | packets written one after another are on the wire one behind the other |
| `Framing.SucceedsIff` | src/ads_io.c:238-284 | a read at a packet succeeds if and only if all its bytes come, with nothing between them, within the budget |
| `Framing.AllSucceedIff` | src/ads_io.c:238-284 | one read per packet: none fails if and only if every packet comes in time |
| `Framing.StreamRoundTrip` | src/ads_io.c:83-114 | reading inverts writing: every list of packets written is read back in order, and the stream is used up |
| `Framing.WhyReadFails` | src/ads_io.c:139-186 | a failed packet read times out if and only if the next event is later than the whole packet's budget, reports a shut-down if and only if that comes in time, and otherwise the error of the system call |
| `Framing.OneBudget` | src/ads_io.c:238-254 | the waits of one packet read never exceed its budget, and a read that times out has spent all of it |
| `Framing.BudgetExact` | src/ads_io.c:241-246 | the budget is the timeout in milliseconds if and only if that is a multiple of 1000; how long it is otherwise |
| `Framing.FractionLastsLonger` | src/ads_io.c:243 | with a timeout of 1500 ms a byte that comes after 400 s is read; with 2000 ms it is not |
| `Framing.NegativeTimeout` | src/ads_io.c:241-249 | a negative timeout makes every read fail at once and take nothing |
| `Requests.FitsExactly` | src/ads.h:237-238 | the tight bounds 8142, 8138 and 8146 on the data are exactly what fits `msgOut` |
| `Requests.RequestHeaderOnTheWire` | src/ads.c:286-295 | the header of each of the six requests, field by field at its place in the packet: lengths, addresses, command number, flags 4, no error, the invokeId |
| `Requests.RequestDataOnTheWire` | src/ads.h:93-188 | the data of each request at its place in the packet: group at 38, offset at 42, lengths at 46 and 50, states at 38 and 40, the payload behind them |
| `Requests.FrameEquation` | src/ads.c:750-764 | the length field is 32 + `dataLength` if and only if the request is not a write control with data; 6 more bytes are always sent |
| `Requests.ControlDataMissing` | src/ads.c:752-764 | a write control with one byte of data announces 9 bytes in a packet that holds 8 |
| `Requests.RequestRoundTrip` | src/ads.h:93-188 | the receiver's packed view of any buffer into which the request arrived recovers header, parameters and payload of all six requests |
| `Ads.SetupAmsHeader` | src/ads.c:286-295 | the ids and ports of the connection and its interface, flags, error code and the next invokeId are at their places in the buffer, and every other byte stays as it was |
| `Ads.BeginRequest` | src/ads.c:358-367 | the buffer holds exactly the encoded headers of a request with the next invokeId |
| `Ads.BuildRead` | src/ads.c:358-372 | `msgOut` holds the encoded read request and is otherwise unchanged |
| `Ads.BuildWrite` | src/ads.c:465-480 | the same for a write; a NULL payload sends what the buffer held there |
| `Ads.BuildReadWrite` | src/ads.c:591-613 | the same for a read-write |
| `Ads.BuildPlain` | src/ads.c:679-686 | the same for the two requests without data |
| `Ads.BuildWriteControl` | src/ads.c:746-764 | the same for a write control, with the data stored behind the packet |
| `Ads.BuiltIsFrame` | src/ads.c:380 | what was built starts the buffer as one packet, so the writer sends exactly the encoded request |
| `Ads.PayloadSent` | src/ads.c:474-480 | a write and a read-write send the bytes of the caller, or for a NULL pointer those that `msgOut` held at the same place |
| `Ads.ControlSent` | src/ads.c:752-764 | of a write control the length of the data is sent and the data is behind the packet |
| `Ads.SendAndReceive` | src/ads.c:380-389 | one write and, only if it succeeded, one read; all that happens on the socket |
| `Ads.ReadBytes` | src/ads.c:342-444 | the whole call: request on the wire, buffers, invokeId, `AnswLen`, return code, reported length and copied bytes |
| `Ads.WriteBytes` | src/ads.c:450-511 | the whole call, with the unsigned comparison of `AnswLen` |
| `Ads.ReadDeviceInfo` | src/ads.c:517-572 | the whole call; 16 of the 24 name bytes are delivered |
| `Ads.ReadWriteBytes` | src/ads.c:578-654 | the whole call; the size check does not depend on the buffer |
| `Ads.ReadDeviceState` | src/ads.c:665-724 | the whole call of `ADSreadState` |
| `Ads.WriteControlData` | src/ads.c:730-795 | the whole call of `ADSwriteControl`; its data is not on the wire |
| `Outcomes.ExchangeCodes` | src/ads.c:867-903 | after a successful write the reader's -11 and -12 cannot come; a failed write is reported as 0x1 if and only if the interface was flagged; the code of each failed read, none of them 0; and the error code 0xe goes with oversized packets only |
| `Outcomes.ReadReturns` | src/ads.c:390-437 | what `ADSreadBytes` returns, reports and copies for every content of its buffer: the result word, or 0x705 when the data is too long, or the error word when the command is another one |
| `Outcomes.ReadWriteReturns` | src/ads.c:627-649 | the same for `ADSreadWriteBytes` |
| `Outcomes.StateReturns` | src/ads.c:701-719 | the same for `ADSreadState` and `ADSreadDeviceInfo`: the result word and the states, version and name as they are in the buffer |
| `Outcomes.WriteReturns` | src/ads.c:494-510 | the same for `ADSwriteBytes` and `ADSwriteControl`: the result word, or the error word for an oversized packet, and 0 from the former for one shorter than a header |
| `Outcomes.FailedReadReturns` | src/ads.c:886-903 | when its read fails each of the four other calls returns 0x15, 0x50a or 0x1a according to the event behind the bytes that came, and delivers nothing |
| `Outcomes.ReadSucceedsIff` | src/ads.c:389-443 | `ADSreadBytes` returns 0 if and only if the reply fits its buffer, has its command and result 0, or has another command and error code 0, or is oversized |
| `Outcomes.ReadWriteSucceedsIff` | src/ads.c:626-653 | the same for `ADSreadWriteBytes` |
| `Outcomes.StateSucceedsIff` | src/ads.c:700-723 | the same for `ADSreadState` and `ADSreadDeviceInfo` |
| `Outcomes.WriteSucceedsIff` | src/ads.c:494-510 | when `ADSwriteBytes` returns 0: also for packets shorter than a header, and for timeouts over a stale result 0 |
| `Outcomes.WriteTimeout` | src/ads.c:494-503 | a write that times out or loses its peer, after any number of reply bytes, returns the result word of its buffer, which is the previous reply's as long as no more than 38 bytes came |
| `Outcomes.ControlTimeout` | src/ads.c:777-788 | a write control whose read fails returns the error word of its buffer, which is the previous reply's as long as no more than 30 bytes came |
| `Outcomes.FreshWriteSucceeds` | src/ads.c:494-503 | on a fresh connection that gets no reply both return 0 |
| `Outcomes.OversizedSucceeds` | src/ads.c:390-443 | a read whose reply is longer than 8192 bytes returns 0 and delivers nothing |
| `Outcomes.OversizedPacket` | src/ads_io.c:290-308 | such a packet of 9000 bytes |
| `Outcomes.ControlSucceedsIff` | src/ads.c:777-788 | when `ADSwriteControl` returns 0: a failed read is judged by the stale error word |
| `Replies.ReadGetsReply` | src/ads.c:392-433 | whatever result and data a device packs into its reply to a read is what the call returns and delivers, unless the data is longer than the buffer |
| `Replies.ReadWriteGetsReply` | src/ads.c:627-649 | the same for a read-write |
| `Replies.StateGetsReply` | src/ads.c:701-716 | the states and the result that a device packs are those delivered and returned |
| `Replies.InfoGetsReply` | src/ads.c:553-564 | so are version, revision, build, the first 16 bytes of the name, and the result |
| `Replies.WriteGetsReply` | src/ads.c:494-500 | both kinds of writes return the result that the device packed |
| `Replies.OtherReply` | src/ads.c:434-437 | a well-formed reply to another command makes the call return its error code and deliver nothing |
| `Replies.ReadFromDevice` | src/ads.c:380-437 | across the socket: a reply to a read that comes in time gives its result and its data |
| `Replies.StateFromDevice` | src/ads.c:691-716 | across the socket: a reply to a state call that comes in time gives its result and its states |
| `AdsServer.Dispatch` | examples/ADSserver.c:102-177 | the data part and its length for every command, in a buffer whose first 500 bytes were cleared |
| `AdsServer.FinishReply` | examples/ADSserver.c:178-195 | after these stores the first 38 bytes are the encoded reply header, with the addresses swapped and the command and invokeId of the request, and the result is 0 |
| `AdsServer.ReplyBuilt` | examples/ADSserver.c:102-195 | that header and a zero result over what the dispatch stored give the reply, whatever the buffer held before |
| `AdsServer.Ranalyze` | examples/ADSserver.c:85-203 | `msgOut` is that reply and exactly its packet is sent |
| `AdsServer.AnswerableIff` | examples/ADSserver.c:154-170 | the packets that can be answered, from the words in them |
| `AdsServer.ReplyHeaderOnTheWire` | examples/ADSserver.c:176-195 | length and header of the reply to every packet that can be answered, field by field: addresses swapped, command and invokeId of the request, flags 5, and 32, 8, 8 plus the length asked for, or 4 bytes of data |
| `AdsServer.StoredOnTheWire` | examples/ADSserver.c:105-175 | the bytes stored for each command: 185, 0, 0 and "PLC COUPLER", the states 5 and 10, or the length, the invokeId and 1 to 16 over and over |
| `AdsServer.ReplyDataOnTheWire` | examples/ADSserver.c:102-202 | every byte behind the header is a stored one, 0 below 500, or as it was before |
| `AdsServer.Round` | examples/ADSserver.c:216-226 | one round: a packet read is answered once, a failed read sends nothing |
| `AdsServer.ServerLoop` | examples/ADSserver.c:215-227 | the loop ends on every finite input, handles the packet of every successful read in order and once, and ends only after 1000 failed reads in a row |
| `AdsServer.PortServer` | examples/ADSserver.c:205-231 | the same from the interface and connection the server makes |
| `AdsServer.RoundWaits` | examples/ADSserver.c:209 | no read of the server waits for more than 900 seconds, and one that times out has waited that long |
| `AdsServer.TrailingFailuresAre` | examples/ADSserver.c:223-226 | the failed reads that end the loop are those behind the last one that succeeded |
| `EndToEnd.RequestSeen` | examples/ADSserver.c:105-172 | the server sees the command, invokeId and length that the client encoded |
| `EndToEnd.ReplyIs` | examples/ADSserver.c:102-202 | the reply depends on the request alone, not on what the server's buffers held before |
| `EndToEnd.ReplyIsFrame` | examples/ADSserver.c:178-195 | the reply is one well-formed packet that names its request |
| `EndToEnd.ReadEndToEnd` | src/ads.c:342-437 | a read of up to 454 bytes at offset 0, through encoding, framing, dispatch, reply and decoding, returns 0 and delivers, byte by byte, the invokeId, 352 bytes that count from 1 to 16 over and over, and zeros |
| `EndToEnd.ServedOverTheWire` | examples/ADSserver.c:216-222 | a servable request that comes in time makes a round of the server send its reply |
| `EndToEnd.CallsOverTheWire` | src/ads.c:380-389 | all six calls across two sockets: the request on the wire makes a round of the server send the reply, and the exchange of the call then returns 0, delivers its data and carries its own invokeId |
| `Program.CallIsActions` | src/ads.c:380-389 | a call whose request goes out is a write action and a later read action on its socket, whatever else the socket has in store: invokeId, buffer and socket end up as the actions say |
| `Program.FailedCallIsAction` | src/ads.c:380-387 | a call whose request does not go out is a write action alone |
| `Program.RoundIsAction` | examples/ADSserver.c:216-226 | a round of the server loop is a round action on its socket |
| `Program.ActionIsStep` | src/ads.c:380-393 | when the transport carries what was sent and no read or write stops inside a packet, each action is a step of the run model, and the channels of the model are what was sent and not yet taken |
| `Program.ExecutionIsRun` | src/ads.c:380-393 | so everything the two programs do, in any order, is a run of the model, state by state |
| `Program.RequestsAreAnswerable` | examples/ADSserver.c:216-222 | in all of it the server reads only requests it can answer |
| `Program.ExecutionAlignment` | src/ads.c:380-393 | in all of it reply `j` that a call reads answers request `j`, which is `lag` requests older than the call's own, where at most as many calls had failed to read; the invokeId is the connection's own if and only if `lag` is 0 |
| `Executions.CallsHappen` | src/ads.c:380-393 | for any list of servable requests the two programs can send, answer and read every one of them, in order and without a failed read |
| `Alignment.StepKeepsStreams` | examples/ADSserver.c:184-192 | every step keeps the invariant on both channels and the receipts |
| `Alignment.RunKeepsStreams` | examples/ADSserver.c:215-227 | so in every world of every run the requests not yet served and the replies not yet received are what is on the two channels |
| `Runs.ReachableIsClosed` | src/ads.c:380-393 | the runs are all interleavings: every world that an enabled step leads to from a reachable one is reachable |
| `Alignment.ReplyAlignment` | src/ads.c:380-393 | in every run in which failed reads take no byte, the call after `t` failed ones receives the reply to the request `t` before its own; calls that send nothing may come in between |
| `Alignment.InvokeIdTellsLag` | src/ads.c:286-295 | the invokeId received is that of the request `t` before; it is the connection's own if and only if no earlier call failed to read, and an older one otherwise |
| `Alignment.LagNeverShrinks` | src/ads.c:389-390 | the distance between calls and replies never gets smaller |
| `Lagging.LaggingRead` | src/ads.c:390-437 | what a read call makes of a reply meant for an older call |
| `Lagging.LaggingReadWrite` | src/ads.c:627-649 | the same for a read-write call |
| `Lagging.LaggingCalls` | src/ads.c:494-788 | the other four calls return 0 for the reply to any older request, and deliver something if and only if it was of their kind |
| `Lagging.LagHappens` | src/ads.c:380-393 | for any two requests there is a run in which the second call receives the reply to the first |
| `ServerRuns.ServesInOrder` | examples/ADSserver.c:215-227 | on a stream of servable requests the loop handles them in order and sends their replies in order |
| `ServerRuns.ExhaustedIsClean` | examples/ADSserver.c:223-226 | on a stream without bytes the loop handles nothing |
| `ServerRuns.AllServed` | examples/ADSserver.c:215-227 | requests that come in time are all handled |
| `ServerRuns.PortServerAnswersAll` | examples/ADSserver.c:205-231 | the precondition of `PortServer` holds for such a stream, and then every request is answered |
| `Cache.MatchesIff` | src/ads_connect.c:68-69 | the 8-byte comparison across two fields succeeds if and only if the ids agree and the ports agree modulo 65536 |
| `Cache.MatchesIsKey` | src/ads_connect.c:176 | for the ports that connections are made with it is equality of address |
| `Cache.MatchesWithoutKey` | src/ads.h:239-240 | a connection that matches an address with another port |
| `CacheRuns.RunKeepsInv` | src/ads_connect.c:60-107 | over every run of gets, timeout changes and closes keys and descriptors stay distinct and every open descriptor is accounted for |
| `CacheRuns.DescriptorConservation` | src/ads_connect.c:131-179 | open descriptors are those from before, the listed ones and one per failed attempt that got one |
| `CacheRuns.CacheRefinesMap` | src/ads_connect.c:60-107 | over every run (up to a close that would free a freed list) the list refines a map from address to descriptor and timeout |
| `CacheRuns.HitIsFirstConnection` | src/ads_connect.c:66-78 | after any run the search finds an address if and only if the map has it, and then the very connection made by the get that first connected the address since the last close |
| `CacheRuns.EntriesStay` | src/ads_connect.c:87-102 | until the next close entries keep their place, key and descriptor |
| `CacheRuns.TimeoutHistory` | src/ads_connect.c:207-223 | each listed timeout is the last one set after the connection was made, or 0 |
| `CacheRuns.PointerHistory` | src/AdsAPI.c:87-92 | what the list pointer points to, from the history alone |
| `CacheRuns.DoubleFreeIff` | src/AdsAPI.c:91-92 | a close would free a freed list, where defined runs end, if and only if something was connected before an earlier close and nothing since |
| `CacheRuns.FailedConnectLeaks` | src/ads_connect.c:143-152 | one failed connect leaves its descriptor open, also after a close |
| `CacheRuns.ClosedTwice` | src/AdsAPI.c:83-94 | one connect and one close, and the next close would free the list a second time |
| `AdsConnect.ConnectionList.SocketConnect` | src/ads_connect.c:116-180 | descriptor, new objects, local id and error code for each way the system calls and the search for the local address can end |
| `AdsConnect.NoAddressIff` | src/ads_connect.c:167-173 | a connect fails for want of a local address if and only if the search is reached and returns 0x1 (no list) or 0xa (no eligible entry) |
| `AdsConnect.ConnectErrors` | src/ads_connect.c:131-173 | the error of every connect: 0x274c if and only if `connect` or `setsockopt` failed with 113, 0xa if and only if a search that was needed met only entries that do not count, 0 if and only if it connected, 0x1 otherwise |
| `AdsConnect.LocalPort` | src/ads_connect.c:167 | the port kept with a local id that a connect found is 801 |
| `AdsConnect.OneLocalId` | src/ads.c:312-334 | once a connect has found an id that does not start with 0, all connections made from then on have that id |
| `AdsConnect.ConnectionList.Lookup` | src/ads_connect.c:66-78 | the search loop finds the first matching entry |
| `AdsConnect.ConnectionList.ConnectNew` | src/ads_connect.c:80-106 | a new connection is appended behind unchanged entries; a failed one changes nothing in the list |
| `AdsConnect.ConnectionList.SocketGet` | src/ads_connect.c:60-107 | the operation of the cache model; a hit returns the listed object itself, a miss a fresh one at the end of the list |
| `AdsConnect.ConnectionList.SetAllTimeouts` | src/ads_connect.c:207-224 | every listed timeout and nothing else is set, unless the port is not positive |
| `AdsConnect.ConnectionList.SocketDisconnect` | src/ads_connect.c:185-201 | the descriptor is closed and set to 0, always with result 0 |
| `AdsConnect.ConnectionList.CloseAll` | src/AdsAPI.c:87-90 | each listed descriptor is closed once, in order, and each connection and interface freed once and not used afterwards |
| `AdsConnect.ConnectionList.PortClose` | src/AdsAPI.c:83-94 | the operation of the cache model: the list is empty and only its descriptors are gone |
| `AdsConnect.FdListAt` | src/AdsAPI.c:87-90 | the descriptors closed are those of the entries, in the order of the list |
| `AdsConnect.BlocksAre` | src/AdsAPI.c:87-90 | the blocks freed are the listed connections and their interfaces and nothing else |
| `AdsApi.Connection` | src/AdsAPI.c:238-240 | the connection of a call: the listed one as it is, or a new one with invokeId 0 and no timeout |
| `AdsApi.FirstRequest` | src/AdsAPI.c:238-244 | the first request on a new connection, as it is on the wire: to the address asked for, from the local id and the same port, with invokeId 1 |
| `AdsApi.ReadKeepsList` | src/AdsAPI.c:242-244 | a transaction changes nothing that the list depends on |
| `AdsApi.ReadListed` | src/AdsAPI.c:242-244 | results, socket and what the next call on the connection finds: the next invokeId, both buffers and `AnswLen` |
| `AdsApi.SyncReadReq` | src/AdsAPI.c:230-245 | the whole call, in the cache and on the socket, hit or miss, and the state in which it leaves the connection for the next call |
| `SymbolTable.NumbersSeen` | src/AdsDEF.h:195-208 | the packed structure shows all six numbers and three lengths of an encoded entry |
| `SymbolTable.StringsSeen` | src/AdsDEF.h:212-214 | the three macros point to disjoint ranges inside the entry that hold the encoded strings |
| `SymbolTable.WalkVisitsAll` | src/AdsDEF.h:216-217 | iterating the next-entry macro visits each entry of a well-formed table once, in order, and stops at the zero word |
| `SymbolTable.TableRoundTrip` | src/AdsDEF.h:195-217 | walking a table and reading each entry gives back the symbols that were encoded |
| `SymbolTable.WalkMovesForward` | src/AdsDEF.h:216-217 | in any memory at all the walk only moves forward |
| `NetIdText.AtoiStops` | src/ads.c:812 | a number read from the rest of a dotted string is that of its first component |
| `NetIdText.AtoiReads` | src/ads.c:812 | behind an optional sign digits are read in base 10 up to the first other character |
| `NetIdText.AtoiSkips` | src/ads.c:812 | white space in front is skipped |
| `NetIdText.AtoiNothing` | src/ads.c:812 | anything else reads as 0 |
| `NetIdText.OctetText` | src/debugprint.c:98-101 | each number is printed in base 10 without leading zeros |
| `NetIdText.PrintedIs` | src/debugprint.c:98-101 | the text is the six numbers with dots between them |
| `NetIdText.SplitJoin` | src/ads.c:811-820 | splitting undoes joining |
| `NetIdText.JoinSplit` | src/ads.c:811-820 | joining undoes splitting, so the components are the string |
| `NetIdText.ParseComponent` | src/ads.c:812-820 | one round of the loop stores one component and moves to the next |
| `NetIdText.ParseNetId` | src/ads.c:802-824 | returns how many of six components are missing, stores those that are there modulo 256 and leaves the other bytes |
| `NetIdText.NetIdToString` | src/debugprint.c:95-104 | the text and its terminator fit the buffer, and the rest of it is unchanged |
| `NetIdText.NetIdRoundTrip` | src/ads.c:802-824 | parsing what is printed gives back every id |
| `LocalAddress.SwappedBackwards` | src/ads.c:848-852 | swapping the word and taking its bytes backwards gives the bytes as they were |
| `LocalAddress.MeAddress.AdsGetMeAddress` | src/ads.c:306-336 | the loop and the cached global, for lists with and without an eligible entry, empty ones and failures |
| `LocalAddress.ADSGetLocalAMSId` | src/ads.c:831-865 | the first eligible entry, the fallback, or for an empty list the id as it was |
| `LocalAddress.FindersAgree` | src/ads.c:312-334 | on a list that is not empty both find the same id if and only if there is an eligible entry and no entry before the first one is without an address; then it is that one's id; otherwise the former dereferences NULL, exactly when such an entry comes first, or fails with 0xa while the latter gives 127.0.0.1.1.1 |
| `LocalAddress.FindersDeliver` | src/ads.c:312-334 | the id both deliver: the four octets a.b.c.d of the first IPv4 entry that is not "lo", in that order, and two ones; the port kept is the one asked for modulo 65536 |
| `LocalAddress.NothingFound` | src/ads.c:326-334 | what each gives without such an entry: 0xa and 127.0.0.1.1.1; for an empty list success, with the id as it was; without a list 0x1 |
| `LocalAddress.AddresslessFirst` | src/ads.c:318 | an interface without an address in front of the first eligible one: one function dereferences NULL, the other finds it |
| `LocalAddress.OnlyLoopback` | src/ads.c:326-328 | a host with only a loopback interface: one function fails with 0xa, the other gives 127.0.0.1.1.1 |
| `LocalAddress.FoundOnce` | src/ads.c:312-334 | once an address was found every later call is reached and returns it, with the port of that first call |

## Left out

- AdsIo.ReadPacket: counts bytes without a bound; the `int` that counts them in the source overflows for packets of 2^31 bytes and more.
- Ads.ReadBytes: a reply that reports more bytes than the buffer holds behind it is shown as `PastEnd`, without saying what a copy past the buffer's end delivers; the same for `Ads.ReadWriteBytes`. The pointer `dataPointer` is not modelled.
- Ads.WriteBytes: lengths are bounded by the buffer (8142) and not negative, because the source copies outside its buffer otherwise; the same for `Ads.ReadWriteBytes` (8138) and `Ads.WriteControlData` (8146).
- AdsServer.Ranalyze: reads have offset 0 and replies fit the buffer (`Answerable`); for other requests the source copies outside its arrays. The printed message of an unknown command is not modelled.
- EndToEnd.ReadEndToEnd: reads of more than 454 bytes also return what older replies left in the server's buffer; the bytes of one such reply are stated in `AdsServer.ReplyDataOnTheWire`, from that buffer.
- Alignment.ReplyAlignment: each call of the run has sent its whole request or nothing of it; after a request of which `send` took a part the server would wait inside it, and a reply that the server fails to send is not part of the runs either. The requests are those whose replies lie in the bytes that the server clears (`Servable`). One client and one server process.
- AdsConnect.ConnectionList.PortClose: requires a list pointer that is not dangling, and runs of the cache end before a close that meets one; `CacheRuns.DoubleFreeIff` says exactly when that is.
- AdsConnect.ConnectionList.SocketConnect: the peer's socket address is not modelled.
- NetIdText.ParseNetId: the numbers that are stored fit an `int`, because `atoi` is undefined otherwise.
- NetIdText.NetIdToString: the buffer is an argument; that all callers share one static buffer is not modelled.
- LocalAddress.MeAddress.AdsGetMeAddress: every entry it looks at has an address, because the source dereferences it; `LocalAddress.Me` has an outcome for lists where that fails.
- Real sockets, `select`, `recv`, `send`, `connect`, `getifaddrs` and `errno`: replaced by the event lists and parameters described above; a descriptor in use is open, and `free` and `close` do not fail.
- Threads, the accepter and its pipe, signals and several connections used at once.
- The other `AdsSync...Ex` calls: like `AdsApi.SyncReadReq`, a lookup followed by the call modelled in `Ads`. The frontends that only pass `defaultPort`, `AdsPortOpen`, `AdsGetDllVersion` and `FileTime2tt` are single expressions.
- Logging, packet dumps and the tables of error texts, command names and state names.
- Device notifications, which the library declares and does not implement.
- Big-endian hosts, allocation failure, and the wrap-around of invokeId beyond 2^31 - 1 in `Alignment.InvokeIdTellsLag`.
