# A verified model of sio

This project models, in Dafny, the parts of the sio repository that keep state which has to agree
with something simpler, and proves that it does.

* **WebSocket framing and messages** (`BigEndian`, `WireFormat`, `Messages`, `Connection`,
  `Conversation`, `Protocol`). The connection object fills and parses byte arrays as the Go code does; every
  method is proved against a pure encoder and decoder, and the theorems are about those: a frame, a
  message and a whole conversation come back as they were sent, if and only if they fit the
  reader's limits; no shorter byte string decodes to the same frame; and arbitrary input is handled
  within the limits. `Protocol` says the same in literal terms: what each role reads, the error for
  everything else, and the bytes of each call.
* **The buffer pool** (`Bins`, `Buffers`, `BufferPool`). The histogram is tied to a ghost log of
  the lengths that were put, so that what calibration chooses can be said of those lengths.
* **The hub and its sockets** (`HubRooms`, `Hub`, `HubMembership`, `HubDelivery`). The objects are
  proved against functions on plain maps; the same functions drive two transition systems, one
  for joining, leaving and closing under every interleaving, one for messages between several hubs.
* **The chat server** (`DirectRooms`, `RateLimiting`, `ChatState`, `ChatDrift`, `ChatServer`) **and
  its store** (`RoomStore`). Each handler is one step; the invariant of every run covers membership
  on both sides, room types, typing flags and the store's two indexes, with the store inside the
  server; and where memory, store and typing table part is stated exactly.

Each part has a module of values with the theorems and, where the Go code changes things in place,
a class whose methods are proved to compute those values. `dafny verify dfyconfig.toml` checks all
of it.

## Where the code does not do what one might expect

The model follows the code. These cases are stated as lemmas.

* A control frame among the fragments of a message is allowed anywhere by section 5.4 of RFC 6455,
  and `WEBSOCKET_IMPLEMENTATION.md` lists fragmentation and reassembly as complete; but the two
  messages arrive if and only if they fit and the control frame is not strictly inside. Inside, the
  reader forgets the fragments before it (`Messages.ControlAmongFragments`). The round-trip
  theorems therefore have control messages between messages only.
* A new data frame before the message under way has ended is forbidden by the same section; the
  reader splices it on and takes its type (`Messages.NewTypeIsSpliced`).
* A connection that ends between two fields of a frame gives plain `EOF`, as if no frame had begun
  (`Protocol.CutFrame`); and an eight-byte length with the top bit set passes the size check and
  gives an empty payload (`Protocol.NegativeLength`).
* Fragments get through where the whole message would not when only the whole message exceeds the
  frame limit; and a fragmented write of no data sends nothing, although a whole write of it is
  delivered (`Messages.FragmentationIsInvisible`, `Messages.SendsNothing`).
* A close code outside 16 bits is truncated (`Messages.CloseRoundTrip`).
* A direct-message room admits exactly its two users if and only if neither user ID contains an
  underscore, and a user whose ID contains one is never admitted
  (`DirectRooms.DMPermissionExact`). The default IDs of `chat/server.go:298` begin with `user_`.
* A join to a direct room opens and stores the room even if it is then refused
  (`ChatState.OpenOutcome`, `ChatState.JoinRecords`); and a group's owner who joins it is recorded as
  a member from then on (`ChatState.JoinRecords`).
* A pair shares its room ID with another pair if and only if its two IDs, sorted and joined by an
  underscore, can be parted in order at another underscore (`DirectRooms.DMRoomSharedExactly`):
  the pair of `a_b` and `c` does, with `a` and `b_c` (`DirectRooms.UnderscoresCollide`).
* Two connections in one second get the same user ID (`chat/server.go:298`). When one client leaves
  a private room, its user's stored membership goes although another client of that user stays. A
  run keeps memory and store together throughout if and only if it has no such leave, and there are
  runs that have one (`ChatDrift.MembersStoredThroughout`, `ChatDrift.MembersStoredMayPart`).
* A client that leaves a room in which it is listed as typing stays listed, until it disconnects or
  a cleanup pass finds the entry more than ten seconds old. A run lists only clients that are there
  throughout if and only if it has no such leave (`ChatDrift.TypistsPresentThroughout`, `ChatDrift.TypistMayBeAbsent`).
* A socket that is made to join a room while it closes may stay there for good. From its deletion on
  it is in exactly the rooms for which a join was handed over after the copying of its rooms and no
  leave since (`HubMembership.DeletedSocketRooms`, `HubMembership.LateJoinStays`).
* Deleting a room that has members and creating it again leaves the store's indexes in
  disagreement (`RoomStore.RecreatedRoomDisagrees`); creating a room keeps them in agreement
  exactly when no user's index mentions it (`RoomStore.CreateRoomAgrees`).
* A fixed window lets twice the quota through in one window's length (`RateLimiting.BoundIsMet`);
  the quota bounds every such interval if and only if it is zero or the window is one tick of the
  clock (`RateLimiting.QuotaBoundsWindowsExactly`).
* A hub may deliver a message to a socket of its own that the message excepts, if and only if the
  message was sent through another hub (`HubDelivery.ExceptionsKeptExactly`).

## What is taken as given

* Reads and writes of the network fail only by the input ending; masking keys are the values of an
  arbitrary function; clock readings, client IDs and the random suffix of a group room are
  parameters, and a random ID is not already in use.
* `sort.Sort` is any sort by calls, with ties in any order; the floating-point 95th percentile of a
  sum is its exact floor or one less. `sync.Pool` may give any buffer it holds, or none.
* The chat handlers run one at a time. A client may be disconnected again, but no message of it is
  handled after its disconnect.
* The adapter between hubs passes a message at most once to each other hub and never back. It may
  leave the exceptions behind: the Redis adapter (`adapters/redis.go:114-150`, commented out)
  publishes none. So exactly-once delivery is for messages that except only sockets of their own hub.

## Model

| member | source | states |
|---|---|---|
| WireFormat.FrameRoundTrip | websocket/websocket.go:969-1207 | reading a written frame gives the frame back and leaves exactly what follows, if and only if the opcode is valid, the masking is what the role demands and the payload is within the frame limit; any FIN and RSV bits, any key, any tail |
| WireFormat.ShortestEncoding | websocket/websocket.go:1005-1051 | no byte string that decodes to a frame is shorter than its encoding, over-long and negative lengths included, and one that is as short is an encoding of it |
| WireFormat.DecodeConsumes | websocket/websocket.go:969-1052 | on any input a frame read takes bytes unless there are none, and yields a valid opcode and a payload within the limit |
| WireFormat.StandardExamples | websocket/websocket.go:1123-1207 | the encodings of the examples in section 5.7 of RFC 6455, unmasked, masked, and of 256 and 65536 bytes |
| WireFormat.MaskInvolution | websocket/websocket.go:1223-1227 | masking twice with one key restores the data |
| WireFormat.HeadRoundTrip | websocket/websocket.go:1152-1184 | the two header bytes give back the flags, the opcode, the mask bit and the 7-bit length |
| WireFormat.LengthRoundTrip | websocket/websocket.go:1005-1022 | each of the three length forms is read back as the length, and nothing more is consumed |
| WireFormat.BodyRoundTrip | websocket/websocket.go:1029-1049 | key and masked payload are read back as the payload |
| WireFormat.DecodeSplits | websocket/websocket.go:977-1051 | whatever decodes is the frame's own header bytes, a length field no shorter than needed, key and masked payload, and the rest |
| BigEndian.ValueOfBytes | websocket/websocket.go:1171-1178 | a number that fits k bytes is what its k bytes spell |
| BigEndian.BytesOfValue | websocket/websocket.go:1014-1021 | bytes are the spelling of the number they spell |
| BigEndian.Put | websocket/websocket.go:1171-1178 | the slice holds the number in network order, the rest of the array is untouched |
| Messages.StreamRoundTrip | websocket/websocket.go:349-379 | any list of messages, whole or fragmented, is read back as exactly that list from exactly the bytes written, if and only if each fits the reader's limits |
| Messages.MessageRoundTrip | websocket/websocket.go:915-966 | one ReadMessage returns what one write sent and takes exactly its bytes, if and only if it fits; otherwise it reports a message too large |
| Messages.FragmentationIsInvisible | websocket/websocket.go:349-379 | the reader's result is that of the single frame, unless only the whole message exceeds the frame limit; of empty data the reader is given nothing, where the single frame is delivered |
| Messages.SendsNothing | websocket/websocket.go:349-379 | of all calls, exactly a fragmented write of no data sends no frame |
| Messages.FragmentShape | websocket/websocket.go:358-375 | one data opcode, then continuations, FIN on the last alone, no empty fragment, none above the size, payloads spelling the data, as few as possible |
| Messages.ReadLoopIsFold | websocket/websocket.go:928-965 | on any input the loop is a fold of one frame's effect over the decoded frames, ending in the first decoding error if no frame ends it, and leaves the stream as it is after the decodes the fold used |
| Messages.ReadLoopWithinLimits | websocket/websocket.go:915-966 | on any input the call makes progress, a data message is within the message limit, and the buffer within one frame of it |
| Messages.ControlAmongFragments | websocket/websocket.go:928-965 | a control frame before any fragment of a message or after the last: both are delivered if and only if both fit and it is first or last; inside, it is delivered and the next read fails |
| Messages.ReadToControl | websocket/websocket.go:928-945 | from any fragment on, the call returns the control frame that comes before a later one and leaves the fragments from there on, or finds something too large |
| Messages.NewTypeIsSpliced | websocket/websocket.go:934-965 | any data frames up to a final one, whatever types they name, are read as one message of the last type named, if and only if each fits a frame and all together the message limit |
| Messages.CloseRoundTrip | websocket/websocket.go:1107-1110 | close code and reason survive if and only if the code fits 16 bits; a payload below two bytes is read as code 1000 |
| Messages.ReadFragments | websocket/websocket.go:928-965 | from any fragment on, the rest of the message arrives with what was buffered, or is too large |
| Connection.Reader.ReadFull | websocket/websocket.go:976-978 | the buffer is filled, or all input is taken and the shortfall reported as EOF or unexpected EOF |
| Connection.MaskBytes | websocket/websocket.go:1223-1227 | the slice is masked in place, from its own offset, and nothing else changes |
| Connection.Conn.WriteFrame | websocket/websocket.go:1123-1207 | the output grows by the encoding of the frame; the array is filled exactly and the caller's payload is not written |
| Connection.Conn.FillHeader | websocket/websocket.go:1152-1184 | the header bytes are those of the frame and end where key and payload begin |
| Connection.Conn.WriteMessage | websocket/websocket.go:1055-1072 | a closed connection writes nothing; an open one writes the single frame |
| Connection.Conn.WriteFragmented | websocket/websocket.go:349-379 | the output grows by the encoded fragments, one fresh key for each; nothing while another fragmented write is under way |
| Connection.Conn.WritePing | websocket/websocket.go:1085-1093 | the output grows by one ping frame |
| Connection.Conn.WritePong | websocket/websocket.go:1096-1104 | the output grows by one pong frame |
| Connection.Conn.WriteClose | websocket/websocket.go:1107-1120 | the output grows by one close frame with code and reason |
| Connection.Conn.ReadFrame | websocket/websocket.go:969-1052 | the frame or the error, and the reader's position, are those of the decoder |
| Connection.Conn.ReadLength | websocket/websocket.go:1005-1022 | the length in its three forms, a set top bit giving a negative number |
| Connection.Conn.ReadMessage | websocket/websocket.go:915-966 | result, reader position and message buffer are those of the frame-by-frame specification; a closed connection reads nothing |
| Protocol.FrameAccepted | websocket/websocket.go:988-1027 | a written frame is read back if and only if its opcode is 0, 1, 2, 8, 9 or 10, its payload is within the limit, and it is masked at a server, unmasked at a client, and either at an end that is neither |
| Protocol.FrameRefused | websocket/websocket.go:993-1002 | a valid opcode with the wrong masking for the role is an invalid frame, with the rest left behind the two header bytes |
| Protocol.HeaderErrors | websocket/websocket.go:976-1002 | for any two header bytes and whatever follows: any other opcode is an invalid opcode, then wrong masking is an invalid frame, and any other error is of the input's end or of the size |
| Protocol.HeaderLayout | websocket/websocket.go:1152-1184 | the value of each flag in the two header bytes |
| Protocol.NegativeLength | websocket/websocket.go:1014-1049 | an eight-byte length whose first byte is 0x80 or more gives an empty payload behind the key, or the error of a short key |
| Protocol.CutFrame | websocket/websocket.go:976-1045 | any proper prefix of an acceptable frame is reported as an ended input: plain EOF if and only if the cut is between two fields, unexpected EOF otherwise |
| Protocol.HeadsArePlain | websocket/websocket.go:349-379 | every frame of every call has no extension bit, is masked as the sender masks, and is final if it is the last |
| Protocol.MessageFrame | websocket/websocket.go:1055-1072 | a whole write is one frame of the type, cut to a byte, around the data |
| Protocol.FragmentOpcodes | websocket/websocket.go:358-375 | the first fragment has the message type's opcode, all others 0 |
| Protocol.ControlFrames | websocket/websocket.go:1085-1120 | a ping is one final frame of opcode 9, a pong of 10, a close of 8 with the code's two low bytes before the reason |
| Protocol.StandardBytes | websocket/websocket.go:1055-1072 | the bytes of a text message "Hello" from a server and from a client are those of section 5.7 of RFC 6455 |
| Protocol.ControlBytes | websocket/websocket.go:1085-1120 | the bytes of an empty ping, an empty pong and a close frame |
| Protocol.KeysAreFresh | websocket/websocket.go:1186-1195 | every masked frame is encoded with a key of its own, the next one, and unmasked frames use none |
| Protocol.ClientToServer | websocket/websocket.go:993-1002 | what a client sends is what a server is given, from exactly the bytes written, if and only if it fits |
| Protocol.ServerToClient | websocket/websocket.go:993-1002 | what a server sends is what a client is given, from exactly the bytes written, if and only if it fits |
| Protocol.SameRolesRefuse | websocket/websocket.go:993-1002 | between two clients or two servers any message is refused as an invalid frame |
| Conversation.Converse | websocket/websocket.go:349-379 | a sender object writes a list of messages, a receiver object reads what was written, one a client and the other a server, or the receiver neither: it is given exactly that list if and only if each fits its limits, and then nothing is left over |
| Conversation.SendAll | websocket/websocket.go:1055-1120 | the output grows by the encoded frames of all messages in order |
| Conversation.ReceiveAll | websocket/websocket.go:864-876 | reading until a call fails gives the outcomes, and leaves the stream, of the specification |
| Bins.ComputeIndex | internal/bpool/pool.go:212-224 | the shift loop computes the clamped bit length of the shifted length |
| Bins.IndexIsLeast | internal/bpool/pool.go:212-224 | a length falls in the least bin that holds it, and is held unless it is beyond the last |
| Bins.IndexMonotone | internal/bpool/pool.go:212-224 | a larger length falls in no smaller bin |
| Bins.AllocationIsTight | internal/bpool/pool.go:75-101 | an unclamped allocation is at most the first bin or 2s-1 |
| Bins.AllocationIsLeast | internal/bpool/pool.go:75-101 | what is allocated for a length is the least power of two that holds it and is not below the first bin, or just the length if it is beyond the last bin or there are no bins |
| Bins.DefaultBins | internal/bpool/pool.go:9-15 | the first bin is 64 bytes and the last of twenty 32 MiB when the pool begins |
| Bins.OuterBins | internal/bpool/pool.go:149-158 | the first bin's count is the puts of at most its size, the last two bins' counts are the puts above the sizes before them |
| Bins.BusierCalls | internal/bpool/pool.go:161-175 | the calls of the bins called more often than a given one are the puts that fell in them |
| Bins.TableCountsPuts | internal/bpool/pool.go:139-148 | the calls of bins up to a size are the logged puts that fell in such bins |
| Bins.SumByPermutation | internal/bpool/pool.go:159 | reordering the table loses no calls of any kind |
| BufferPool.SortByCalls | internal/bpool/pool.go:193-210 | the table is sorted by descending calls and is a permutation of what it was |
| BufferPool.Cut | internal/bpool/pool.go:161-175 | the default is the first bin's size; bins within the maximum have more calls than the percentile; the busier bins alone do not |
| BufferPool.CutFits | internal/bpool/pool.go:159-178 | said of the logged puts: the default is the size of a most-called bin, the maximum covers more puts than the percentile, and the puts in busier bins than the maximum's do not exceed it |
| BufferPool.CalibrationKeepsWhatIsUsed | internal/bpool/pool.go:130-181 | more puts than the 95th percentile, exact or one less, have lengths that fit the new maximum, those beyond the last bin aside |
| BufferPool.TableTotal | internal/bpool/pool.go:140-148 | the sum of calls is the number of puts |
| BufferPool.ChooseSizes | internal/bpool/pool.go:159-178 | sorting and cutting the table gives sizes that fit the puts it counts |
| BufferPool.Pool.Get | internal/bpool/pool.go:51-61 | an empty buffer, pooled or fresh with the default capacity |
| BufferPool.Pool.GetLen | internal/bpool/pool.go:75-102 | a buffer of exactly the length asked for, pooled if and only if the one given is large enough, else freshly allocated |
| BufferPool.Pool.Put | internal/bpool/pool.go:113-128 | the pool invariant is kept: the histogram is the log's, no count is above the threshold, sizes are powers of two from 64 up; past 42000 calls of one bin the sizes fit the puts, the bins move as the lengths say and the log restarts |
| BufferPool.Pool.Calibrate | internal/bpool/pool.go:130-181 | the new sizes fit the puts since the last calibration and the counts are zero; the bins go up by one if more puts were above 2^(m+18) than at most 2^m and m is below 12, else down by one if some were at most 2^m, none above 2^(m+17) and m is above 6, and else stay |
| BufferPool.Pool.AdjustBins | internal/bpool/pool.go:149-158 | the first bin's width stays between 6 and 12 bits and moves as the first and last bins' calls say |
| Buffers.ByteBuffer.ReadFrom | internal/bpool/bytebuffer.go:30-59 | the buffer becomes its old contents and then all the reader had, the count is the new bytes, and growth starts at 64 bytes and copies fewer than twice the final length, and nothing if all fits from the start |
| Buffers.ByteBuffer.Write | internal/bpool/bytebuffer.go:75-78 | the contents grow by the bytes written |
| Buffers.ByteBuffer.Set | internal/bpool/bytebuffer.go:97-99 | the contents become the bytes given |
| Buffers.ByteBuffer.Reset | internal/bpool/bytebuffer.go:112-114 | the buffer is empty |
| Buffers.Source.Read | internal/bpool/bytebuffer.go:48 | a read into a non-empty slice moves bytes from the front of what is pending and makes progress or fails |
| HubRooms.JoinAddsOne | hub.go:104-110 | joining adds one socket to one room and leaves no room empty |
| HubRooms.LeaveRemovesOne | hub.go:111-119 | leaving removes one socket from one room, and a room that this empties is gone |
| Hub.Hub.SetMultihomeBackend | hub.go:81-93 | the first backend is kept |
| Hub.Hub.Add | hub.go:98-101 | the socket is stored under its ID |
| Hub.Hub.Delete | hub.go:102-103 | the socket is gone from the socket map, rooms are untouched |
| Hub.Hub.JoinRoom | hub.go:104-110 | the rooms are as after one join; keys stay the IDs of what they hold, no room is empty |
| Hub.Hub.LeaveRoom | hub.go:111-119 | the rooms are as after one leave, with the same invariant |
| Hub.Hub.FromSocket | hub.go:120-136 | each socket of a broadcast, each member of a roomcast's room that is not excepted gets the event once, no other socket anything, and the backend gets the message if there is one |
| Hub.Hub.FromBackend | hub.go:137-150 | the same delivery, and nothing is handed back to the backend |
| Hub.EmitAll | hub.go:151-162 | each member gets the event once unless it is excepted |
| Hub.Socket.constructor | socket.go:41-58 | a new socket is in the hub and in no room |
| Hub.Socket.Join | socket.go:122-127 | both sides gain the room |
| Hub.Socket.Leave | socket.go:132-137 | both sides lose the room |
| Hub.Socket.LeaveAll | socket.go:142-146 | the socket is in no room and nobody else's membership changes |
| Hub.Socket.Close | socket.go:219-259 | uninterrupted, the socket is gone from the hub and from every room, nothing else changes, and closing again does nothing |
| HubMembership.MembershipAgrees | hub.go:95-119 | in every state of every interleaving, with the request in hand and the pending updates counted in, hub and sockets agree, and no room is empty; with nothing pending they agree as they are |
| HubMembership.StepKeepsInvariant | socket.go:122-137 | each step of hub or socket keeps that agreement |
| HubMembership.DeletedSocketRooms | socket.go:219-259 | under every interleaving, a deleted socket is in exactly the rooms for which a join was handed over after the one copying of its rooms and no leave since, so in none if and only if there was no such join |
| HubMembership.LateJoinStays | socket.go:219-259 | for every socket and room a run that deletes the socket and leaves it in the room |
| HubDelivery.AtMostOnce | hub.go:120-177 | a socket gets a message at most once in every reachable state, and once if and only if its hub handled it for that socket and it is not excepted |
| HubDelivery.ExactlyOnceWhenDrained | hub.go:120-177 | once channels drain, exactly once for every socket addressed when its hub handled the message, on the sending hub and on each that had a backend at the hand-over |
| HubDelivery.DrainedMeansHandled | hub.go:134-177 | once channels drain, every hub that had a backend when a message was handed over has handled it; a hub attached later is not waited for |
| HubDelivery.AttachedAtHandOver | hub.go:134-136 | the hubs recorded with a message are those that had a backend at the point of the run where it was handed over |
| HubDelivery.HandOverStays | hub.go:134-136 | a message that a hub with a backend has handled is handed over from then on |
| HubDelivery.StepKeepsRouted | hub.go:120-177 | a message is at each hub either on its way or handled, never both and never again |
| HubDelivery.HandleAccounts | hub.go:123-131 | handling a message delivers it once to each socket addressed |
| HubDelivery.AudienceWasAddressed | hub.go:120-177 | what is recorded as addressed is every socket for a broadcast and the room's members for a roomcast, as they were at the point of the run where the hub handled the message |
| HubDelivery.ForeignExceptionMayBeIgnored | adapters/redis.go:114-150 | for every message and every socket of another hub that it excepts, a run in which that socket is delivered to |
| HubDelivery.ExceptionsKeptExactly | adapters/redis.go:114-150 | no run delivers a message to a socket it excepts, if and only if it excepts only sockets of the hub it is sent through |
| RoomStore.IndexesAgree | chat/database.go:478-549 | in every run that creates no mentioned room, members and rooms lists agree with each other and with a plain set of pairs; in every run the rooms are those created and not deleted, the member side is the additions not ended since by a removal, deletion or creation, and stays within the user side |
| RoomStore.MembersExactly | chat/database.go:503-549 | in every run a room has a member exactly while its last addition stands, with that addition's record |
| RoomStore.RoomsExactly | chat/database.go:478-507 | in every run a room is stored exactly while its last creation stands, as created then |
| RoomStore.CreateRoomAgrees | chat/database.go:478-482 | creating a room keeps agreement if and only if no user's index mentions it |
| RoomStore.RecreatedRoomDisagrees | chat/database.go:503-507 | a room deleted with a member and created again |
| RoomStore.AddChangesOne | chat/database.go:509-521 | adding a member changes one pair in either index, with the record given, and no other |
| RoomStore.RemoveChangesOne | chat/database.go:523-531 | removing a member changes one pair in either index, and no other |
| RoomStore.DeleteChangesOne | chat/database.go:503-507 | a deleted room has no members and is not stored; no user's index and no other room changes |
| RoomStore.InMemoryDB.CreateRoom | chat/database.go:478-482 | the new state of both maps |
| RoomStore.InMemoryDB.GetRoom | chat/database.go:484-489 | the stored room, or nothing when it is not there |
| RoomStore.InMemoryDB.GetUserRooms | chat/database.go:491-501 | the existing rooms of the user's index, once each |
| RoomStore.InMemoryDB.DeleteRoom | chat/database.go:503-507 | room and members go, users' indexes stay |
| RoomStore.InMemoryDB.AddRoomMember | chat/database.go:509-521 | both indexes gain the pair |
| RoomStore.InMemoryDB.RemoveRoomMember | chat/database.go:523-531 | both indexes lose the pair |
| RoomStore.InMemoryDB.GetRoomMembers | chat/database.go:533-541 | the members of the room, once each |
| RoomStore.InMemoryDB.IsUserInRoom | chat/database.go:543-549 | whether the room's index has the user |
| RateLimiting.RateLimitBound | chat/server.go:1386-1413 | an interval of length T sees at most R * (ceil(T / W) + 1) messages let through, so 2R in one window's length |
| RateLimiting.AcceptedAhead | chat/server.go:1401-1412 | a window lets through what is left of its quota, and each later window a quota |
| RateLimiting.CheckKeepsQuota | chat/server.go:1386-1413 | the count stays within the quota, and a refusal leaves the limiter as it was |
| RateLimiting.RefusedOnlyWhenUsedUp | chat/server.go:1401-1412 | a message is refused only when the whole quota was let through within the last window's length |
| RateLimiting.BoundIsMet | chat/server.go:1386-1413 | for every quota and every window of more than one tick a run that gets twice the quota through |
| RateLimiting.QuotaBoundsWindowsExactly | chat/server.go:1386-1413 | the quota bounds every interval of one window's length in every run if and only if it is zero or the window is one tick |
| DirectRooms.DMPermissionExact | chat/server.go:1245-1256 | exactly the two users are admitted if and only if neither ID has an underscore |
| DirectRooms.DMAdmitsParts | chat/server.go:1245-1256 | whom a direct room admits: the underscore-separated parts of the two IDs |
| DirectRooms.AdmitsExactly | chat/server.go:1245-1256 | any room ID at all admits exactly the parts between underscores behind dm: |
| DirectRooms.DMRoomIDSymmetric | chat/server.go:1560-1564 | the room ID does not depend on the order of the users |
| DirectRooms.LessExactly | chat/server.go:1563 | the order is lexicographic: the strings part at a place with a smaller character, or the first is a proper prefix of the second |
| DirectRooms.DMRoomIDSpelled | chat/server.go:1560-1564 | the room ID is dm: and the two IDs joined by an underscore, the lexicographically smaller first |
| DirectRooms.DMRoomIDInjective | chat/server.go:1560-1564 | if the IDs of one pair have no underscore, another pair has its room exactly when it is the same unordered pair |
| DirectRooms.DMRoomSharedExactly | chat/server.go:1560-1564 | another pair has this pair's room ID if and only if the sorted and joined IDs can be parted in order at another underscore |
| DirectRooms.UnderscoresCollide | chat/server.go:1564 | an instance: two pairs with one room ID |
| DirectRooms.PrefixesAreExclusive | chat/server.go:1174-1184 | an ID has at most one of the type prefixes public:, group: and dm: |
| ChatState.EveryRunIsConsistent | chat/server.go:436-613 | in every state of every run: membership agrees on both sides, nobody disconnected is left in a room or typing, types match IDs, typing flags match the table, the store's indexes agree |
| ChatState.StepKeeps | chat/server.go:463-498 | each handler keeps that |
| ChatState.JoinRoomKeeps | chat/server.go:501-537 | joining keeps it, refused joins included |
| ChatState.LeaveRoomKeeps | chat/server.go:576-603 | leaving keeps it |
| ChatState.DisconnectKeeps | chat/server.go:1320-1358 | disconnecting keeps it, for the first time or again with whatever rooms are still held |
| ChatState.SetTypingKeeps | chat/server.go:750-783 | typing keeps it |
| ChatState.CleanupKeeps | chat/server.go:1486-1521 | a cleanup pass keeps it |
| ChatState.CleanupExact | chat/server.go:1489-1519 | a pass removes exactly the entries older than ten seconds, leaves no empty room entry, and changes nothing but entries and flags |
| ChatState.GetOrCreateKeeps | chat/server.go:1165-1236 | opening a room keeps it, and a room that is newly stored was mentioned by no index |
| ChatState.CreateGroupRoomKeeps | chat/server.go:1529-1557 | making a group keeps it |
| ChatState.CreateDMRoomKeeps | chat/server.go:1560-1597 | making a direct room keeps it |
| ChatState.GroupRoomOutcome | chat/server.go:1529-1557 | a new group is stored with its creator as owner and only member, may be entered by its creator and nobody else, and nothing else changes |
| ChatState.DMRoomOutcome | chat/server.go:1560-1597 | the room is stored, a new one with exactly its two users as members; exactly those two may enter if and only if neither ID has an underscore |
| ChatState.DMRoomRecords | chat/server.go:1560-1597 | a new direct room is stored with its name and both users as members, and nothing else changes |
| ChatState.StartIsConsistent | chat/server.go:244-280 | it holds at the start, with exactly the lobby, random and help rooms in memory and in the store, and nobody anywhere |
| ChatState.JoinAndLeaveTestsConcur | chat/server.go:512-603 | the type test on join and the prefix test on leave agree on every room |
| ChatState.JoinOutcome | chat/server.go:501-537 | a client gets into exactly the rooms it may enter (public ones, groups whose store entry names it, direct rooms that name it), stays in its own, and nobody else's membership changes; both indexes of the store gain the user of a client that enters a private room, and no other pair; no other room appears or goes |
| ChatState.JoinDecision | chat/server.go:503-518 | the code's lookups and tests on join, taken together, decide exactly that |
| ChatState.MayEnterExactly | chat/server.go:503-518 | who may enter: anybody a public room, the stored members a group, the users its ID names a direct room, and nobody anything else |
| ChatState.OpenOutcome | chat/server.go:1165-1236 | which IDs can be opened, the empty room that appears, and the direct room that is stored; nothing else changes |
| ChatState.JoinRecords | chat/server.go:501-537 | whether or not the client gets in, rooms and stored rooms are those after opening; entering a private room records its user as member, and no other record changes |
| ChatState.LeaveOutcome | chat/server.go:576-603 | one client is out of one room, and the room is gone if it was private and had nobody else; both indexes of the store lose the user of a client that leaves a private room, and no other pair; nothing else changes |
| ChatState.DisconnectOutcome | chat/server.go:1320-1358 | the client is gone from every room and typing entry, and nobody else is; of the rooms it held, exactly the private ones with nobody else in them close; a second disconnect does nothing but close such rooms |
| ChatState.TypingOutcome | chat/server.go:750-783 | a member's entry is set to the present or removed, all others stay, and a non-member's message does nothing |
| ChatDrift.LeaveKeepsMembersStored | chat/server.go:576-603 | if every client in a private room is a stored member of it, leaving keeps that if and only if the room is public, the client is not in it, or no other client of its user is |
| ChatDrift.StepKeepsMembersStored | chat/server.go:463-498 | every step keeps that, unless it is such a leave |
| ChatDrift.MembersStoredThroughout | chat/server.go:463-498 | it holds in every state of a run if and only if no step of the run is such a leave |
| ChatDrift.MembersStoredMayPart | chat/server.go:576-603 | for any two clients of one user a run that has such a leave and parts memory and store at it |
| ChatDrift.StepKeepsTypistsPresent | chat/server.go:463-498 | if everybody listed as typing is in the room, a step keeps that unless it is the leave of a client that is listed there |
| ChatDrift.TypistsPresentThroughout | chat/server.go:463-498 | it holds in every state of a run if and only if no step of the run is such a leave |
| ChatDrift.TypistMayBeAbsent | chat/server.go:576-603 | for every client and public room a run after which the client is listed and not there |
| ChatDrift.GoodThroughout | chat/server.go:463-498 | for any property of states: if of all steps exactly certain ones end it, exactly the runs without them have it throughout |
| ChatServer.Server.constructor | chat/server.go:244-280 | the server starts with its default rooms in memory and in the store |
| ChatServer.Server.Connect | chat/server.go:323-343 | a new client is in no room and not typing |
| ChatServer.Server.GetOrCreateRoom | chat/server.go:1165-1236 | rooms, store and result are those of the step |
| ChatServer.Server.CheckRoomPermission | chat/server.go:1239-1260 | the loop decides the permission of the step |
| ChatServer.Server.HandleJoinRoom | chat/server.go:501-537 | the whole state after a join |
| ChatServer.Server.HandleLeaveRoom | chat/server.go:576-603 | the whole state after a leave |
| ChatServer.Server.HandleClientDisconnect | chat/server.go:1320-1363 | the whole state after a disconnect, the first or a later one; the client's limiter is gone |
| ChatServer.Server.HandleTyping | chat/server.go:750-783 | table and flag after a typing message |
| ChatServer.Server.CleanupTypingIndicators | chat/server.go:1486-1521 | table and flags after a pass over all rooms |
| ChatServer.Server.CheckRateLimit | chat/server.go:1386-1413 | the limiter and the answer are those of the step |
| ChatServer.Server.CreateGroupRoom | chat/server.go:1529-1557 | the store has the room and its owner |
| ChatServer.Server.CreateDMRoom | chat/server.go:1560-1597 | the room ID, and the store with the room and both members unless it was there |

## Left out

- TCP, TLS, the HTTP handshake, deadlines and the keep-alive goroutine: I/O and library calls.
- permessage-deflate: the write side compresses and the read side does not inflate, so there is no round trip to state; compression is off in the model.
- Write errors and concurrent writers on one connection: one writer whose writes succeed.
- Connection.Conn.WriteFragmented: asks for a positive fragment size when there is data to send, because the source does not finish or panics otherwise.
- Integer overflow of lengths: payloads are below 2^63 bytes, as Go's `len` is.
- Socket close when the connection or the disconnect handler returns an error: both return before the removal is complete.
- Hub.Socket.Close: is proved as an uninterrupted sequence, because methods do not interleave; what closing achieves with other requests in between is `HubMembership.DeletedSocketRooms`.
- A hub's list of sockets at shutdown, the ping goroutine and event dispatch: no state that has to agree with other state.
- The chat server's `Room` objects are values in its room map, so that sharing of one room object between handlers in progress is not captured; clients are objects.
- The concurrent interleaving of chat handlers: each is one atomic step.
- Session restore from Redis: clients start in no room.
- Deletion of rooms and changes of membership over HTTP during chat runs: the effect on the store alone is in `RoomStore`.
- Messages, receipts, history paging, uploads and the relay-only call handlers: they keep no second copy of their state.
- PostgreSQL, the Redis adapter and the browser clients: external or commented out.
- ChatState.StepKeeps: asks, in `Enabled`, that random client IDs and group suffixes do not repeat, which the source leaves to chance.
