# Verification of goshire

A Dafny model of the stateful core of goshire, an asynchronous request/response framework, with proofs of
what that core promises. `dafny verify dfyconfig.toml` checks everything.

- **Client connection** (`ConnectionProtocol`, `ConnectionTheorems`, `DistinctRequests`, `Connection`). A state
  machine whose steps are what one goroutine does between two points where another can run: the three steps of
  `sendRequest`, the arms of the event loop, the token receive, each turn of the two cleanup loops, the listener,
  `Close`. The history of deliveries per request is part of the state. `CheshireConn` is the same as an object
  whose methods are proved to be those steps.
- **Pool and client** (`PoolProtocol`, `PoolTheorems`, `Pool`, `Client`). The pool cut at its shutdown tests,
  channel sends and clean-ups, so that `Close` can overlap with borrowers; the object with its methods run one
  at a time; the borrow/send/return discipline of a call.
- **Binary protocol** (`Wire`, `Packets`, `PacketTheorems`, `WireFormat`, `BinaryProtocol`). What is written and
  read, as functions on byte strings, with exact round-trip domains, prefix-freeness and stream framing; the
  bytes of every packet field by field, when a writer fails, and what a decoder makes of all field values; writers
  and decoders as code over a buffer and a reader, proved against them. Parameters are values of an opaque type
  with a marshal/unmarshal pair of which only `unmarshal(marshal(p)) = p` is assumed (`Json.Lawful`).
- **JSON quoting** (`Utf8`, `JsonString`). The batched copy loop against per-character escapes, and a reader.
- **DynMap** (`Paths`, `LeafMaps`, `TreeContents`, `GoMaps`, `DynMaps`, `RequestMaps`, `UrlEncoding`,
  `UrlTheorems`). Nested maps on the heap whose contents are a map from every path to a value or a nested map,
  empty or not; puts of values and of maps, look-ups, clones, and rails-style flattening and rebuilding, for
  every order in which Go may visit the maps.
- **Time and statistics** (`Integers`, `Decimal`, `TimeAmounts`, `StatsLog`, `Stats`). Truncating bucket numbers,
  bucketed counters against the log of their events, roll-up between time amounts, snapshots.
- **Router and ids** (`Router`, `TxnIds`).

Where a property holds only under a condition, the lemma states the condition as an if and only if where one was
found: which requests are stranded by cleanup, when a closed pool leaks a connection, which packets, arrays,
paths, trees, amounts and bucket starts survive a round trip, when the order of map keys matters. Conservation
of statistics is an exact account of what conflicting keys lose.

Code and documentation disagree in some places; the model follows the code. `sendRequest` is said to wait 20
seconds (client/connection.go:101-104, 112) but waits one; a failed send keeps its token (115-117), so a
disconnected connection loses capacity. `connection` shadows its error variable (client/client.go:253), so the
caller always gets the generic error. `cleanup` is said to fail all waiting requests; `CleanupCanStrand` is a run
where it does not, a sender being between its connected test and its enqueue. `Close` of the pool is said to clean
up all connections (client/pool.go:50); `CloseCanLeak` is a run where a borrower past its shutdown test puts one
into the channel behind it, and it stays there.

## Model

| member | source | states |
|---|---|---|
| `ConnectionProtocol.TokenStep` | client/connection.go:107-124 | every step keeps the count of tokens: senders holding one, queued, waiting, one owed by the loop, and the lost ones, never above the limit |
| `ConnectionProtocol.PlaceStep` | client/connection.go:157-227 | every step keeps each accepted request in exactly one place: queued, waiting under its id, displaced by a same-id request, or finished by a final delivery |
| `ConnectionProtocol.InvStep` | client/connection.go:105-227 | the whole invariant survives every step of senders, listener, event loop and cleanup, in any interleaving |
| `ConnectionTheorems.RunKeepsInv` | client/connection.go:105-227 | and so every run |
| `ConnectionTheorems.InFlightBounded` | client/connection.go:107-113 | in every reachable state the queued and waiting requests fit maxInFlight, and the token receive after a completed response finds a token, with or without duplicate ids |
| `ConnectionTheorems.TokensConserved` | client/connection.go:107-124 | while connected no token is wasted if and only if no request overwrote another in the map; distinct ids give that |
| `ConnectionTheorems.SettledForever` | client/connection.go:186-205 | deliveries are never taken back and a request that has had its final delivery gets nothing more |
| `ConnectionTheorems.DeliveredAtMostOnce` | client/connection.go:186-205 | at every moment a request has received only non-completed responses carrying its own id and then at most one completed response or error; it is unfinished exactly when queued, waiting or displaced |
| `ConnectionTheorems.RespondDelivers` | client/connection.go:186-205 | a response whose id is waiting is delivered to exactly that request, which is forgotten and gives its token back exactly if the status is completed; any other response only leaves the queue |
| `ConnectionTheorems.OthersDeliverNone` | client/connection.go:105-227 | no other step delivers a response |
| `ConnectionTheorems.DeliversWhatArrives` | client/connection.go:186-205 | over any run the responses a request has received are, in order, exactly those taken from the incoming queue under its id while it was the one waiting |
| `ConnectionTheorems.IncomingIsFifo` | client/connection.go:140-155 | over any run the responses taken and those still queued are together those that arrived, in order |
| `ConnectionTheorems.OutgoingIsFifo` | client/connection.go:119-125 | over any run the requests taken and those still queued are together those accepted, in order |
| `ConnectionTheorems.CleanupFailsEachOnce` | client/connection.go:157-176 | whatever else runs meanwhile, each request queued or waiting at loop exit has received exactly one error more when cleanup ends |
| `ConnectionTheorems.CleanupIsBounded` | client/connection.go:157-176 | whatever runs meanwhile, the turns cleanup has made and may still have to make add up to the requests queued and waiting and the senders past their test |
| `ConnectionTheorems.StrandingIffCleared` | client/connection.go:115-124 | after the first cleanup loop a request can still be accepted and then never be answered on any continuation, if and only if some sender had passed its connected test before |
| `ConnectionTheorems.CleanupCanStrand` | client/connection.go:115-124 | it happens: a run of a fresh connection with one request that ends stopped with the request stranded |
| `ConnectionTheorems.ForgottenForever` | client/connection.go:157-176 | a displaced or late request never receives anything again |
| `ConnectionTheorems.SameIdLosesTheFirst` | client/connection.go:206-210 | dispatching a second request with a waiting id loses the first one for good; otherwise the dispatch loses nothing |
| `ConnectionTheorems.ExactlyOnce` | client/connection.go:157-227 | with distinct ids and no sender between its test and its enqueue, every request ever accepted ends with exactly one final delivery, and queue and map are empty |
| `DistinctRequests.DistinctCallersDistinctIds` | client/connection.go:105-126 | if the ids callers come with are distinct, so are those of all requests accepted in the run |
| `DistinctRequests.DrawnAreDistinct` | client/client.go:332-334 | ids drawn in different calls of one id source are distinct, within 2^64 calls |
| `DistinctRequests.ExactlyOnceForIssuedIds` | client/client.go:332-334 | exactly-once delivery for runs whose ids come from the id source, with no hypothesis that they differ |
| `ConnectionTheorems.StoppedSettlesAll` | client/connection.go:157-176 | in a stopped connection with an empty queue the finished requests are exactly those not displaced |
| `Connection.CheshireConn.SendRequest` | client/connection.go:105-126 | without a token it closes the connection and fails; on a closed one it fails and keeps the token; with the queue full it waits past its test; otherwise the wrapped request is new and last in the queue |
| `Connection.CheshireConn.Close` | client/connection.go:128-133 | asks for exit, once more, if still connected |
| `Connection.CheshireConn.TakeToken` | client/connection.go:107-113 | the reservation step of sendRequest |
| `Connection.CheshireConn.CheckConnected` | client/connection.go:115-117 | the connected test of sendRequest; a refused sender leaves its token behind |
| `Connection.CheshireConn.Enqueue` | client/connection.go:119-125 | the enqueue step of sendRequest |
| `Connection.CheshireConn.Arrive` | client/connection.go:140-155 | the listener queues a decoded response |
| `Connection.CheshireConn.SignalExit` | client/connection.go:128-133 | Close, or the end of the listener, waits to hand over an exit signal |
| `Connection.CheshireConn.Respond` | client/connection.go:186-205 | the response at the head of the queue goes to the request waiting under its id, which is forgotten once completed, with one token to take back; without one the response is dropped and nothing else changes |
| `Connection.CheshireConn.Release` | client/connection.go:203-204 | the token receive needs no guard: a token is there |
| `Connection.CheshireConn.Dispatch` | client/connection.go:206-220 | the outgoing arm: the request goes into the map under its id |
| `Connection.CheshireConn.Exit` | client/connection.go:223-224 | the exit arm clears the connected flag |
| `Connection.CheshireConn.DrainQueue` | client/connection.go:163-167 | the first cleanup loop fails everything queued once and empties the queue |
| `Connection.CheshireConn.FailWaiting` | client/connection.go:172-175 | the second, in any order of the map, fails everything waiting once and empties the map |
| `Connection.CheshireConn.Cleanup` | client/connection.go:157-176 | cleanup gives exactly one error to everything queued or waiting and nothing to anything else |
| `Connection.CheshireConn.Turn` | client/connection.go:184-225 | one turn of the select on the fields: what is delivered, to whom, what leaves the queues and the map, and the token taken back |
| `Connection.CheshireConn.CleanupAmong` | client/connection.go:157-176 | both cleanup loops with other goroutines in between: one error for everything outstanding at the start, nothing for any other request of that time |
| `Connection.CheshireConn.EventLoop` | client/connection.go:178-227 | the loop and its deferred cleanup for every choice of ready arms and every batch of steps of other goroutines before each turn |
| `Connection.InterferedIsAll` | client/connection.go:105-155 | steps of the other goroutines in a row are never skipped when they can run |
| `Connection.OneTurn` | client/connection.go:184-225 | a turn is the batch before it and then the arm picked |
| `Connection.TurnsInARow` | client/connection.go:184-225 | turns in a row are one after another, none left out |
| `PoolProtocol.InvStep` | client/pool.go:28-112 | every step of borrowers and Close keeps each connection in exactly one hand and the places counted |
| `PoolTheorems.PlacesConserved` | client/pool.go:68-112 | free and borrowed connections add up to the size until shutdown, sends to the channel always find room, no connection is in two hands |
| `PoolTheorems.CleanedOnceIffChannelEmpty` | client/pool.go:51-63 | no connection is cleaned up twice; when nobody has anything left to do, all have been cleaned up once if and only if the channel is empty |
| `PoolTheorems.LeakIffPastTest` | client/pool.go:82-112 | after Close has drained the channel, a run in which everybody finishes can leave a connection never cleaned up, if and only if a borrower had passed the shutdown test before |
| `PoolTheorems.CloseCanLeak` | client/pool.go:51-63 | it happens: a run of a fresh pool of one connection that ends closed and idle with the connection never cleaned up |
| `PoolTheorems.AllCleanedAfterClose` | client/pool.go:51-63 | if none had, then after all returns every connection ever created has been cleaned up exactly once |
| `PoolTheorems.ReplaceRun` | client/pool.go:95-112 | replacing a broken connection is a run of the protocol and finds room in the channel |
| `Pool.NewPool` | client/pool.go:30-48 | makes size connections, or cleans up those made before the first failure |
| `Pool.Pool.Borrow` | client/pool.go:68-79 | takes the first free connection; fails exactly when the pool is shut down, nothing is free or the wait times out, and then changes nothing |
| `Pool.Pool.Return` | client/pool.go:82-88 | puts it back at the end, or cleans it up after shutdown |
| `Pool.Pool.ReturnBroken` | client/pool.go:95-112 | puts a replacement in and cleans the broken one up, or puts the broken one back when none can be made |
| `Pool.Pool.Close` | client/pool.go:51-63 | shuts down and cleans up what is free |
| `Pool.Pool.ClosedMeansCleaned` | client/pool.go:51-63 | a closed pool with everything returned has cleaned up every connection once |
| `Client.EqualShare` | client/client.go:211-219 | the limit per connection is the largest equal share within MaxInFlight, or two |
| `Client.TotalInFlight` | client/client.go:206-219 | the connections of a pool together never exceed MaxInFlight, except that each may always have two |
| `Client.JsonClient.Connect` | client/client.go:206-233 | sets the limit per connection and fills the pool with new connections of that limit, or fails without one |
| `Client.JsonClient.Close` | client/client.go:236-243 | closes the pool once, and panics if an open client has none |
| `Client.JsonClient.Connection` | client/client.go:249-269 | gives a connection exactly when the pool is open, has one and some try does not time out, at the first such try; otherwise fails after exactly one try per place and retry and changes nothing |
| `Client.JsonClient.DoApiCall` | client/client.go:327-342 | no connection exactly when none can be borrowed; otherwise fails exactly without a token or on a closed connection, waits exactly with the queue full, and else the request is last in that connection's queue; what was borrowed is given back exactly once, a broken connection as its replacement and closed; a request without an id gets a new one |
| `Client.JsonClient.GiveBackBroken` | client/client.go:350-365 | the pool gets the replacement and the broken connection is closed, or it gets the broken one back |
| `TxnIds.IdsRepeatOnlyAfterFullTurn` | cheshire/strestpackets.go:41-44 | two ids are equal exactly when a multiple of 2^64 calls lies between them |
| `TxnIds.TxnIdSource.NewTxnId` | cheshire/strestpackets.go:41-44 | the next number of the 64-bit counter in decimal; ids are pairwise distinct for the first 2^64 calls |
| `Wire.IntRoundTrip` | cheshire/protocol_bin.go:578-583 | an integer written in a field of any width is read back wrapped to it, unchanged exactly when it fits |
| `Wire.ArrayRoundTrip` | cheshire/protocol_bin.go:578-612 | reading back a written length-prefixed array gives it and what follows exactly when its length fits the prefix |
| `Wire.WriteUndoesRead` | cheshire/protocol_bin.go:614-625 | writing an integer just read gives the same bytes |
| `WireFormat.BigEndian` | cheshire/protocol_bin.go:578-583 | byte i of an integer field carries the digit of its weight, the most significant first |
| `Packets.Code` | cheshire/protocol_bin.go:51-76 | the number of a name in an inverted table is a position of that name, for exactly the names listed |
| `WireFormat.Codes` | cheshire/protocol_bin.go:10-39 | the number of every transaction mode, status, method and content encoding |
| `WireFormat.ReadCodeByte` | cheshire/protocol_bin.go:266-275 | a code byte is its value below 128, too large if the table has no such entry, and negative from 128 on |
| `WireFormat.RequestErrors` | cheshire/protocol_bin.go:493-573 | a request is written whole exactly if mode and method are listed and its parameters marshal; otherwise the first that fails is reported |
| `WireFormat.ResponseErrors` | cheshire/protocol_bin.go:420-490 | the same for a response's status and parameters |
| `WireFormat.RequestFields` | cheshire/protocol_bin.go:493-573 | every byte of a written request: the fields in order, each with its width, length and code |
| `WireFormat.RefusedRequestFields` | cheshire/protocol_bin.go:493-530 | what has been written of a refused request: the fields before the one at fault |
| `WireFormat.ResponseFields` | cheshire/protocol_bin.go:420-490 | every byte of a written response; content only if its encoding is set |
| `WireFormat.RefusedResponseFields` | cheshire/protocol_bin.go:420-455 | what has been written of a refused response |
| `WireFormat.ShardFields` | cheshire/protocol_bin.go:398-418 | every byte of a shard header, none for nil |
| `WireFormat.HelloFields` | cheshire/protocol_bin.go:373-387 | every byte of a hello |
| `WireFormat.RequestFromFields` | cheshire/protocol_bin.go:245-342 | what is read from the fields of a request for all values of its codes and texts: each error in the order found, empty text as empty parameters, and the names of the codes |
| `WireFormat.RequestHasFields` | cheshire/protocol_bin.go:245-342 | and a request is read from nothing but such fields |
| `WireFormat.ResponseFromFields` | cheshire/protocol_bin.go:112-213 | the same for a response |
| `WireFormat.ResponseHasFields` | cheshire/protocol_bin.go:112-213 | and a response is read from nothing but such fields |
| `WireFormat.HelloFromFields` | cheshire/protocol_bin.go:85-109 | a hello is read whatever its encoding byte says |
| `PacketTheorems.ShardRoundTrip` | cheshire/protocol_bin.go:216-242 | a shard header comes back exactly when partition, key length and revision fit |
| `PacketTheorems.RequestRoundTrip` | cheshire/protocol_bin.go:493-573 | a request followed by anything comes back normalised with the rest exactly for requests in the domain; content survives an unset encoding |
| `PacketTheorems.ResponseRoundTrip` | cheshire/protocol_bin.go:420-490 | the same for responses, whose content is dropped when the encoding is unset |
| `PacketTheorems.HelloRoundTrip` | cheshire/protocol_bin.go:373-387 | the hello comes back with version and user agent put in exactly when its text fits the prefix |
| `PacketTheorems.RequestStable` | cheshire/protocol_bin.go:245-342 | bytes after a decoded request do not change the decoding, and decoding consumes something |
| `PacketTheorems.ResponseStable` | cheshire/protocol_bin.go:112-213 | bytes after a decoded response do not change the decoding, and decoding consumes something |
| `PacketTheorems.RequestPrefixFree` | cheshire/protocol_bin.go:245-342 | no strict prefix of an encoded request decodes |
| `PacketTheorems.ResponsePrefixFree` | cheshire/protocol_bin.go:112-213 | no strict prefix of an encoded response decodes |
| `PacketTheorems.StreamDecodes` | cheshire/binarylistener.go:66-85 | for any decoder with these laws, a stream of encodings decodes to exactly its values and a clean end |
| `PacketTheorems.ClientStreamDecodes` | cheshire/binarylistener.go:66-85 | a hello and any in-domain requests are read as exactly those, with nothing left over |
| `PacketTheorems.ServerStreamDecodes` | client/connection.go:140-154 | any in-domain responses are read as exactly those, with nothing left over |
| `BinaryProtocol.ByteWriter.WriteByteArray` | cheshire/protocol_bin.go:693-712 | writes length and bytes and returns how many bytes were written |
| `BinaryProtocol.ByteReader.ReadByteArray` | cheshire/protocol_bin.go:578-612 | reads a length-prefixed array, or the error for that input |
| `BinaryProtocol.CopyByteArray` | cheshire/protocol_bin.go:613-641 | what is copied and what is left are together the input; it stops short exactly when fewer bytes follow than the length says, a negative length passes as zero, and otherwise it is reading and writing again |
| `BinaryProtocol.InvertTable` | cheshire/protocol_bin.go:51-76 | the filled map gives every name its number in the table |
| `BinaryProtocol.BinProtocol.WriteShardRequest` | cheshire/protocol_bin.go:398-418 | a nil shard writes nothing |
| `BinaryProtocol.BinProtocol.WriteRequest` | cheshire/protocol_bin.go:493-573 | writes the request's fields up to the first error; the error is an unlisted mode, else an unlisted method, else parameters that do not marshal, and there is none otherwise |
| `BinaryProtocol.BinProtocol.WriteResponse` | cheshire/protocol_bin.go:420-490 | writes the response's fields up to the first error, an unlisted status or else parameters that do not marshal, and none otherwise |
| `BinaryProtocol.BinProtocol.WriteHello` | cheshire/protocol_bin.go:373-387 | writes the hello with version and user agent; fails exactly if it does not marshal |
| `BinaryProtocol.BinDecoder.DecodeHello` | cheshire/protocol_bin.go:85-109 | reads what the specification reads, with the same error and the same rest |
| `BinaryProtocol.BinDecoder.DecodeShardRequest` | cheshire/protocol_bin.go:216-242 | reads what the specification reads, with the same error and the same rest |
| `BinaryProtocol.BinDecoder.DecodeRequest` | cheshire/protocol_bin.go:245-342 | reads what the specification reads, with the same error and the same rest |
| `BinaryProtocol.BinDecoder.DecodeResponse` | cheshire/protocol_bin.go:112-213 | reads what the specification reads, with the same error and the same rest |
| `BinaryProtocol.BinDecoder.HandleConnection` | cheshire/binarylistener.go:62-88 | hello, then requests until the first error |
| `JsonString.JSONEncodeString` | cheshire/strestpackets.go:416-463 | succeeds exactly on valid UTF-8, with the quoted per-character escapes; otherwise hands back the input |
| `JsonString.ReadUndoesQuote` | cheshire/strestpackets.go:416-463 | a JSON reader (section 7 of RFC 8259) reads the output back to the original string and stops behind the closing quote, whatever follows |
| `JsonString.QuotedIsSafe` | cheshire/strestpackets.go:435-446 | no byte below 0x20 and no angle bracket in the output |
| `JsonString.QuotedCharacter` | cheshire/strestpackets.go:425-446 | the exact form of every character: two bytes for quote, backslash, line feed and carriage return, six for other control characters and angle brackets, all else unchanged |
| `JsonString.QuotedConcat` | cheshire/strestpackets.go:416-463 | and a string is quoted character by character |
| `Utf8.DecodeAllIffValid` | cheshire/strestpackets.go:452-455 | rune-by-rune decoding succeeds exactly on encodings of scalar values (sections 3 and 4 of RFC 3629) |
| `Utf8.EncodeOfDecode` | cheshire/strestpackets.go:452-456 | a decoded rune's encoding is the bytes it was decoded from |
| `Utf8.DecodeOfEncode` | cheshire/strestpackets.go:452-456 | an encoded rune decodes to itself, whatever follows |
| `Utf8.RuneBits` | cheshire/strestpackets.go:452-456 | how many bytes a scalar value takes and which of its bits each carries (section 3 of RFC 3629) |
| `Router.MatchingPatternsAgree` | cheshire/router.go:76-86 | two patterns of equal length matching one path are equal |
| `Router.AnswerUnique` | cheshire/router.go:107-125 | the longest-match answer is unique, so independent of map order |
| `Router.AnswerExists` | cheshire/router.go:107-125 | and there always is one |
| `Router.AfterRegistration` | cheshire/router.go:107-125 | a new pattern changes answers only on paths it matches longest |
| `Router.TableContents` | cheshire/router.go:167-186 | a table holds exactly the registrations of its method |
| `Router.OrderIrrelevant` | cheshire/router.go:144-150 | permuting non-duplicate registrations changes no table |
| `Router.RegistrationIsLocal` | cheshire/router.go:167-186 | a registration changes only its own method's answers, on paths where it is the longest match |
| `Router.Router.Reg` | cheshire/router.go:167-186 | panics exactly for an invalid method, else an empty pattern, else a route already registered for the method, changing nothing; otherwise registers |
| `Router.Router.Register` | cheshire/router.go:144-150 | registers method by method up to the first panic |
| `Router.Router.FindMatch` | cheshire/router.go:107-125 | the scan in any order finds the answer |
| `Router.Router.Match` | cheshire/router.go:129-140 | the controller of the longest registered route of the method that is the path itself, or ends in a slash and is a prefix of it; the not-found controller exactly if there is none |
| `Router.VerbNames` | cheshire/router.go:152-165 | which names mean which method, letter by letter, in any case |
| `LeafMaps.PutLeafKeepsPrefixFree` | dynmap/dynmap.go:436-461 | no leaf ever lies on the way to another |
| `LeafMaps.PutLeafIsMinimal` | dynmap/dynmap.go:436-461 | one dotted put amounts to adding an entry and keeping those no other lies on the way to |
| `TreeContents.AtAfterPut` | dynmap/dynmap.go:436-461 | what is found at every path after a put of a value or a whole map: the put at and below its path, maps above, all else unchanged |
| `TreeContents.LeavesAfterPut` | dynmap/dynmap.go:436-461 | a put of a value seen on the values alone |
| `TreeContents.GrownPut` | dynmap/dynmap.go:436-461 | a put of a value makes no empty map |
| `GoMaps.EntryAfterUpdate` | dynmap/dynmap.go:444-459 | setting one entry of one nested map, to a value or to a tree of maps, changes what is at its path and below, and nothing else |
| `GoMaps.TreeAfterUpdate` | dynmap/dynmap.go:444-459 | and keeps the nested maps a tree |
| `DynMaps.DynMap.OpenStep` | dynmap/dynmap.go:445-450 | a new sub-map on the way changes nothing else |
| `GoMaps.UpdateDenotes` | dynmap/dynmap.go:459 | setting or deleting an entry is a put on the contents, empty maps included, and nothing was in the way |
| `GoMaps.DenotesWellFormed` | dynmap/dynmap.go:436-461 | everything above something is a map |
| `GoMaps.SubTree` | dynmap/typecast.go:105-123 | a nested map of a tree is a tree of its own |
| `DynMaps.FoundAfterPutWithDot` | dynmap/dynmap.go:487-515 | after a dotted put its key finds the value unless the literal dotted key is an entry, which stays and still answers; look-ups along incomparable paths are unchanged |
| `DynMaps.DynMap.Put` | dynmap/dynmap.go:424-426 | puts a value or a map under the literal key, whatever was there; at every other path nothing changes |
| `DynMaps.DynMap.PutWithDot` | dynmap/dynmap.go:436-461 | fails exactly when a value lies strictly above the path, and then not one map has changed; otherwise the value or map is at the path, nested maps are above it, and nothing else changes |
| `DynMaps.DynMap.Get` | dynmap/dynmap.go:487-515 | the literal key if there is anything, else what lies along the dots |
| `DynMaps.DynMap.PutIfAbsent` | dynmap/dynmap.go:400-407 | puts exactly when the look-up finds nothing |
| `DynMaps.DynMap.Remove` | dynmap/dynmap.go:470-479 | removes what is under the literal key and nothing else |
| `DynMaps.DynMap.Clone` | dynmap/dynmap.go:49-59 | same contents, empty maps included, no map shared |
| `RequestMaps.RequestFound` | cheshire/strestpackets.go:119-127 | a request as a map: its five values are found, the parameters, empty or not, as a map |
| `RequestMaps.ToDynMap` | cheshire/strestpackets.go:119-127 | builds that map by five dotted puts, the first of the parameter map itself |
| `DynMaps.DynMap.Around` | dynmap/typecast.go:105-123 | ToDynMap of a nested map: the same map, not a copy |
| `Paths.JoinOfSplit` | dynmap/dynmap.go:437 | splitting on dots loses nothing |
| `Paths.SplitOfJoin` | dynmap/dynmap.go:437 | dotless segments come back |
| `Paths.UrlKeyRoundTrip` | dynmap/dynmap.go:101-102 | the bracketed key leads back to the path exactly for paths without separators |
| `Paths.UrlKeyInjective` | dynmap/dynmap.go:123 | different clean paths have different keys |
| `Paths.PathOfPartedKey` | dynmap/dynmap.go:101-102 | an opening bracket or a dot starts the next segment, a closing bracket is skipped, and a key without any is one segment |
| `Paths.UrlKeyForm` | dynmap/dynmap.go:121-124 | the key of a path is its first segment and each other one in brackets |
| `UrlEncoding.MarshalURL` | dynmap/dynmap.go:70-82 | adds every leaf exactly once, in some order |
| `UrlEncoding.UrlEncode` | dynmap/dynmap.go:114-137 | adds the leaf, or every leaf below the map, under its bracketed key; a slice adds its elements and then itself printed |
| `UrlEncoding.EncodeEntries` | dynmap/dynmap.go:121-124 | the loop over a map's entries, in any order |
| `UrlEncoding.EncodeLeaf` | dynmap/dynmap.go:127-136 | what is not a map: a slice adds its elements, nested slices likewise, and then itself printed |
| `UrlEncoding.AddedOfSlice` | dynmap/dynmap.go:127-136 | a slice adds what its elements add, in their order, and then its printed form; anything else its printed form alone |
| `UrlEncoding.SprintOfSlice` | dynmap/dynmap.go:135-136 | a slice is printed in brackets with single spaces between its elements |
| `UrlEncoding.UnmarshalURLValues` | dynmap/dynmap.go:98-111 | puts every key once, in some order; a key that no value and no other key's path bars ends up as the text of its single value, or as the list of exactly its values |
| `UrlTheorems.RebuiltIsMinimal` | dynmap/dynmap.go:98-111 | on the values alone, rebuilding is adding all entries and keeping those no other lies on the way to |
| `UrlTheorems.LeavesOfRebuilt` | dynmap/dynmap.go:98-111 | the values come out as if there were no maps |
| `UrlTheorems.NestedOfRebuilt` | dynmap/dynmap.go:98-111 | the maps afterwards are those no key is at or above and those on the way to a value |
| `UrlTheorems.OrderIrrelevant` | dynmap/dynmap.go:98-111 | the order in which the keys are visited makes no difference exactly when two keys naming one unblocked path always carry the same values |
| `UrlTheorems.RebuiltOfEncoded` | dynmap/dynmap.go:98-137 | leaves at clean paths all come back, for all orders: texts as they were, other leaves printed, a list of texts as those texts and its printed form, an empty list as its printed form |
| `UrlTheorems.NoPutRefused` | dynmap/dynmap.go:104-108 | none of the rebuilding puts fails |
| `UrlTheorems.UrlRoundTrip` | dynmap/dynmap.go:98-137 | flattening and rebuilding gives the same tree, in all orders, exactly for clean paths, text leaves and no empty map |
| `UrlTheorems.ThroughUrl` | dynmap/dynmap.go:70-111 | the same for a DynMap and the one rebuilt from it |
| `Integers.TruncDivTwice` | timeamount/timeamount.go:125 | trunc(trunc(x/a)/b) = trunc(x/(ab)) |
| `Integers.TruncDivMeaning` | timeamount/timeamount.go:125 | Go's division truncates toward zero |
| `TimeAmounts.ParseUndoesToString` | timeamount/timeamount.go:70-106 | reading back the text form gives the same amount exactly for amounts without a sign |
| `TimeAmounts.ParseMeaning` | timeamount/timeamount.go:70-106 | any text is read by its first run of digits and of letters: the number below 2^63, and the timeframe by whether the word starts, in any case, with mil, s, min, h or d; an error for every other word or number |
| `TimeAmounts.ParseOfForm` | timeamount/timeamount.go:70-106 | the documented form: each timeframe exactly for the words that start like it, whatever separates number and word |
| `TimeAmounts.ParseOfNothing` | timeamount/timeamount.go:70-106 | no number or no word is an error |
| `TimeAmounts.BucketLengths` | timeamount/timeamount.go:108-126 | 1000 milliseconds to the second, 60 seconds to the minute, 60 minutes to the hour, 24 hours to the day |
| `TimeAmounts.NegativeAmount` | timeamount/timeamount.go:125 | a negative amount numbers the same buckets the other way round |
| `TimeAmounts.BucketsByLength` | timeamount/timeamount.go:108-126 | the bucket number is the time divided by the bucket length |
| `TimeAmounts.ToTrendrrEpochMonotone` | timeamount/timeamount.go:108-126 | bucket numbers never go back |
| `TimeAmounts.CoarseBucketFromFine` | timeamount/timeamount.go:108-126 | the bucket of a k times longer amount is the fine bucket divided by k |
| `TimeAmounts.FromTrendrrEpochInRange` | timeamount/timeamount.go:134-158 | in range, the start of a bucket is its number of lengths after the epoch |
| `TimeAmounts.BucketStartRoundTrip` | timeamount/timeamount.go:134-158 | the start of bucket e is numbered e, before and after the epoch, exactly when it is a representable duration |
| `TimeAmounts.TimeLiesInItsBucket` | timeamount/timeamount.go:108-158 | a time at or after the epoch lies between the starts of its bucket and the next; before the epoch the bucket is open below |
| `StatsLog.CurrentValue` | stats/stats.go:136-160 | the current value of a key is its last SET in the current epoch and the increments after it, if no event of the epoch is at a key above it |
| `StatsLog.IncsAccounted` | stats/stats.go:136-160 | for all keys and clocks, persisted and current buckets hold together the increments less exactly what conflicting keys lost of them, for every choice of epochs, in int64 arithmetic |
| `StatsLog.IncsAccountedExactly` | stats/stats.go:136-160 | exactly so without overflow |
| `StatsLog.IncsConserved` | stats/stats.go:136-160 | increments are conserved if no event at a key above falls into one bucket with one at the key |
| `StatsLog.IncsConservedExactly` | stats/stats.go:136-160 | exactly so without overflow |
| `StatsLog.EpochsIncrease` | stats/stats.go:140-149 | under a clock that does not go back persisted epochs strictly increase, up to the current one |
| `StatsLog.PersistedAtChange` | stats/stats.go:140-149 | each change of the bucket number persists the bucket as it stood just before, whatever its values, in order, and nothing else is persisted |
| `StatsLog.BucketHoldsItsEpoch` | stats/stats.go:136-160 | and every bucket holds exactly its own epoch's increments |
| `StatsLog.RollUp` | stats/stats.go:136-160 | coarse buckets hold together what the fine buckets that map into them hold |
| `StatsLog.CoarseBucketIsSumOfFine` | stats/stats.go:136-160 | under such a clock each single coarse bucket is the sum of its fine buckets |
| `StatsLog.ConflictingKeysLose` | stats/stats.go:151-156 | one step: an item below a number is dropped and the numbers below an item's key go, exactly these |
| `Stats.MustInt64` | dynmap/dynmap.go:149-167 | the number found, or the default where there is none or a map |
| `Stats.AddItem` | stats/stats.go:151-156 | increments or sets one key of one bucket |
| `Stats.Stats.Roll` | stats/stats.go:140-149 | persists and replaces a bucket exactly when its number changed |
| `Stats.Stats.AddTo` | stats/stats.go:138-158 | the body of add's loop |
| `Stats.Stats.Add` | stats/stats.go:136-160 | one event for every time amount, in any order of the map |
| `Stats.Stats.Get` | stats/stats.go:123-134 | clones that show the current buckets and share nothing with them |
| `Stats.Stats.EventLoop` | stats/stats.go:109-120 | every reply shows the state at its place in the run, still after all later items |
| `Stats.RunIsLogged` | stats/stats.go:136-160 | a run is, time amount by time amount, the log of its events |
| `Stats.EventsInOrder` | stats/stats.go:136-160 | every item is one event of every time amount, in order, and requests are none |
| `Stats.CollectorRollsUp` | stats/stats.go:136-160 | so two time amounts of one collector roll up |
| `Stats.New` | stats/stats.go:52-70 | refuses the first bad text, divides by zero on a zero amount, otherwise opens an empty bucket per time amount |

## Left out

- Sockets, listeners, HTTP, websockets, templates, sessions, static files, signals, bootstrap, logging, closer, cache: plumbing over libraries that are not part of this model.
- The text of JSON, percent-encoding of URLs, YAML: parameters are opaque, and URL flattening is modelled at the level of `url.Values`.
- `Request.MarshalJSON` and `Response.MarshalJSON`, which format JSON by hand: they would need a full JSON reader; only the string quoting is modelled.
- `dynmap/toml.go`, filters and controllers: unfinished, or only easy members.
- Errors of the destination while writing a packet: `ByteWriter` always succeeds.
- Real time: whether a wait times out, and clock readings, are parameters.
- Liveness: a send to a result or error channel is taken to find its receiver, and nothing says that a step will be taken.
- Write errors in the outgoing arm (client/connection.go:215-219) only log, so they leave the model's state alone; changing a request's id after it was sent is not modelled.
- Connection.CheshireConn.SendRequest: runs without interruption; the interleavings are those of `ConnectionProtocol`, where its three steps are separate.
- Connection.CheshireConn.EventLoop: other goroutines run between turns and between turns of the first cleanup loop, not between a completed response and its token; `ConnectionTheorems` has all interleavings.
- Pool.Pool.Borrow: the methods of the pool object run one at a time; the interleavings are those of `PoolProtocol`.
- BinaryProtocol.BinDecoder.DecodeRequest: inputs on which the source panics (negative raw lengths, negative table numbers) give the outcome `Panicked`, and the reader is then of no further use.
- TimeAmounts.ToTrendrrEpoch: the source computes seconds, minutes and hours in floating point; here the quotients are exact. An amount of 0 divides by zero and is excluded.
- TimeAmounts.FromTrendrrEpoch: a timeframe other than the five, which only a hand-made value could have, is not modelled.
- DynMaps.DynMap.Put: a map that is put lies in maps of its own; one reachable on two paths, `*map`, `DynMaper` values, nil maps and cycles are not modelled.
- UrlEncoding.UrlEncode: leaves are texts, anything else by its printed form, and slices of these; a map inside a slice is not modelled.
- Stats.Stats.EventLoop: takes the items that got into the channel; `Set` and `Inc` drop an item when the channel is full (stats/stats.go:73-88). What `persist` does with a bucket is only logged by the source; here it is the ghost history.
- Router.Router.Reg: a nil handler and a controller whose route changes after registration are not modelled; upper-casing is modelled as far as it can produce the four method names.
