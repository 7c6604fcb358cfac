# The MQTT client core: a verified model

A Dafny 4.11 model of the C client's state machines and algorithms, with proofs of what they
promise. `dafny verify dfyconfig.toml` checks all of it.

## What is modelled

- `SocketBuffer.dfy`: the buffering of unfinished reads as functions defined in every state and
  for every order of calls, and whole runs of it. The answers of `recv` are part of a run: some
  bytes, "would block", an error or the end.
- `ReadPath.dfy`: the resumable non-blocking read path, a class whose methods compute exactly
  those functions. Ghost histories record every answer of `recv` with the amount asked for, every
  byte it delivers, where it delivers them, and every frame completed. A socket on which a read
  fails stays open until it is closed.
- `CarelessRuns.dfy`: the runs in which the read path hands out the wrong packets.
- `WritePath.dfy`: partial writes and the socket registry. `writev` takes any prefix or nothing or
  fails. Ghost histories record every call of `writev` with its answer, every attempt to make a
  socket nonblocking with its result, and per socket the bytes on the wire and the packets
  accepted.
- `Codec.dfy`: the fixed header with its variable-length integer, a reference reading of a byte
  stream as frames (`Framing.Parse`), and packet bodies with the parsers and the dispatch.
- `EndToEnd.dfy`: writer, wire and reader together.
- `ClientPackets.dfy`, `Properties.dfy`: CONNECT and SUBSCRIBE from body to wire, the `write*`
  helpers, and version 5 property lists.
- `Session.dfy`: message ids, messages in flight, the publication store, acknowledgements and
  inbound delivery. The acknowledgement history is written where a PUBACK is sent or queued. A
  delivery holds the client and the entry it handed out, and anything may happen until it returns.
- `LinkedList.dfy`: the doubly linked list with real pointers, and its meaning as a sequence with
  a cached cursor (`ListSpec`), which the socket registry is built on.
- `Sha1.dfy`, `WebSocket.dfy`, `Utf8.dfy`, `Base64.dfy`: each has a module with the standard
  (FIPS 180-4, RFC 6455, RFC 3629, RFC 4648) and one with the implementation that refines it.

Code that changes things in place is modelled by classes, arrays and loops, each proved against a
specification function whose own properties are then proved as lemmas. Bytes, constants and fields
that a standard or the sender fixes are stated by themselves, apart from the functions the code uses.

## Where the code falls short of its promise

Each of these is stated as an exact condition, both ways, or with an example.

- The client does not close a socket when a read of it fails, and the header bytes cached by then
  stay in the default queue. The next socket that is read and has nothing yet takes them for its
  own if and only if there are any (`CarelessRuns.StaleHeader`). `CarelessRuns.ErrorLeftOpen` is a
  run in which a PUBACK that has arrived is not handed out. Reads are right again when a caller
  closes a socket after SOCKET_ERROR before it reads any (`SocketBuffer.Careful`, `ReadPath.Serve`).
- Two header bytes in a row are both cached if and only if the socket is not 0, because 0 marks an
  unused default queue (`CarelessRuns.HeaderIsKept`). `CarelessRuns.ZeroMisread` is a run in which
  socket 0 has no whole packet yet and one is handed out.
- `Socket_addSocket` counts sockets and does not look at the number. The records agree afterwards if
  and only if nothing was registered or the number is below FD_SETSIZE
  (`WritePath.SocketModule.AddSocket`); `WritePath.RegisterBeyondSet` registers 1024 first of all.
- A client destroyed while its callback runs is gone when the callback returns, and the code goes on
  with freed memory. A delivery ends so if and only if its client is no longer there
  (`Session.ClientStates.EndDelivery`); `Session.DestroyInCallback` is such a run.
- A PUBLISH framed again with a kept WebSocket key has a fresh plain message id that is not masked
  again: id and payload read back if and only if the key is 0 over the id
  (`WebSocket.ResentPublish`).
- A packet is read back as sent if and only if the topic has at most 65535 bytes and the remaining
  length is at most 268435455. Above that no complete header is ever seen.
- `MQTTProtocol_assignMsgId` never tries the id it gave last: it returns 0 although that id may be
  free. It returns 0 if and only if every other id is taken, `Session.RefuseFreeId` is a run that
  gets there, and with fewer than 65534 messages in flight it always succeeds.
- SHA-1 pads as the standard says if and only if the message is shorter than 2^29 bytes, because
  the bit length is computed in 32 bits.
- `Base64_encodeLength` is right if and only if the input is shorter than 2^30 bytes.
- `writeInt4` is right if and only if the value is below 2^31 or a multiple of 2^24.
- The pointer advance of `MQTTProperties_write` is `MQTTProperties_len` if and only if every
  variable integer and the total fit the format; its return value equals that advance if and only
  if the properties take fewer than 128 bytes.
- The cached search finds what a linear search finds, wherever the cursor is, if and only if at
  most one element matches (`ListSpec.CacheIsInvisible`); `ListSpec.CacheCanReturnALaterMatch`
  is an example with two.
- `Socket_addSocket` returns SOCKET_ERROR for a socket that is not there yet if and only if the set
  is full or the socket cannot be made nonblocking, and leaves it registered in the second case
  (`WritePath.SocketModule.AddSocket`).
- The branch of `SocketBuffer_getQueuedData` that grows a buffer in use frees it before copying.
  On the read path it is never taken: `Getdata` proves that a resumed read needs no larger buffer.

## Model

| member | source | states |
|---|---|---|
| ReadPath.Serve | src/MQTTPacket.c:38-94 | Fragmentation independence: for any run of opening, reading and closing sockets and any answers of recv, in which a socket that fails is closed before the next read and none is 0, the packets handed out for every open socket, one that has failed included, are those of one sequential parse of all bytes recv has delivered for it; socket numbers may be reused; states and outcomes are exactly those of the buffering functions and every step of the trace is as Perform says |
| ReadPath.Perform | src/MQTTPacket.c:38-94 | One event, exactly: a socket receives the bytes recv delivered and no other socket any; an attempt is interrupted only when recv would block or gave fewer bytes than asked for, fails only with recv or on a malformed header, and otherwise hands out the packet of one more frame; a failure leaves the socket as it is |
| ReadPath.SocketReader.Factory | src/MQTTPacket.c:38-94 | One attempt: every byte recv delivered is accounted for; interrupted only when recv would block or gave fewer bytes than asked for, failed only with recv or when four length bytes all ask for another, else the packet built from the next frame; all other sockets untouched |
| ReadPath.SocketReader.Recv | src/utils/Socket.c:498-561 | The system call: at most the bytes asked for, all of them received by the socket, and the answer on record with the amount asked for |
| ReadPath.SocketReader.ReadingIsParsing | src/utils/Socket.c:498-561 | At any moment the completed frames are the parse of all bytes recv delivered and the queue holds exactly the unparsed rest |
| ReadPath.SocketReader.Decode | src/MQTTPacket.c:175-198 | The number accumulated over cached and fresh length bytes is the body length of the complete header; an interruption keeps every byte delivered; a failure is that of recv or of a fourth length byte asking for another |
| ReadPath.SocketReader.LengthByte | src/MQTTPacket.c:175-198 | One more length byte adds its digit times the power, and ends the header exactly when its top bit is clear |
| ReadPath.SocketReader.Getch | src/utils/Socket.c:498-518 | The next header byte, replayed, or delivered by recv and cached; only when recv would block the header so far is put aside whole |
| ReadPath.SocketReader.Getdata | src/utils/Socket.c:529-561 | The body continues where the last attempt stopped and keeps every byte recv delivers; it stops only when recv would block or gave fewer bytes than asked for; when it ends, the frame joins the history; no resumed read needs a larger buffer |
| ReadPath.SocketReader.Store | src/utils/Socket.c:529-561 | Bytes delivered by recv end up behind those already held, so that none in hand is lost |
| ReadPath.SocketReader.MakeRoom | src/utils/SocketBuffer.c:160-193 | A buffer with room, the bytes already held and how many; contents are lost exactly when a buffer in use must grow |
| ReadPath.SocketReader.Replay | src/utils/SocketBuffer.c:202-226 | Replays the next cached header byte, and says when all are replayed; every byte delivered stays accounted for |
| ReadPath.SocketReader.PutAside | src/utils/SocketBuffer.c:234-253 | Header and body bytes are kept for the socket; one queue per socket and a clean default queue remain |
| ReadPath.SocketReader.Finish | src/utils/SocketBuffer.c:261-273 | The used queue becomes the clean default queue, its buffer is kept for reuse, and the socket has no queue left |
| ReadPath.SocketReader.CacheChar | src/utils/SocketBuffer.c:281-310 | A delivered byte joins the cached header, so that none in hand is lost; neither error of the code is reached |
| ReadPath.SocketReader.Cleanup | src/utils/SocketBuffer.c:137-150 | Closing a socket in any state: it is forgotten, nothing of a failed read of it stays in the default queue, and all other sockets stay accounted for |
| CarelessRuns.StaleHeader | src/utils/SocketBuffer.c:234-310 | The bytes that a failed read left in the default queue become those of the next socket read without result, which is right exactly when there are none |
| CarelessRuns.ErrorLeftOpen | src/utils/SocketBuffer.c:234-310 | A run with a failed socket left open: a PUBACK has arrived whole on another and is not handed out |
| CarelessRuns.HeaderIsKept | src/utils/SocketBuffer.c:281-310 | Two header bytes in a row are both cached exactly when the socket is not 0 |
| CarelessRuns.ZeroMisread | src/utils/SocketBuffer.c:281-310 | A run on socket 0: no packet is complete and one is handed out |
| Framing.ParseIsSound | src/MQTTPacket.c:38-94 | The reference reading yields well-formed frames, loses no byte, and stops only at an incomplete rest |
| Framing.ParseIsUnique | src/MQTTPacket.c:38-94 | Well-formed frames with an incomplete rest are read back as exactly those |
| Framing.ParseOfPrefix | src/MQTTPacket.c:38-94 | How far a stream has come decides how many of its frames are out, never which |
| Framing.Encode | src/MQTTPacket.c:157-173 | Writes the base-128 digits in place and nothing else, or only counts them |
| Framing.LengthRoundTrip | src/MQTTPacket.c:157-198 | Encoding and decoding a length are inverse up to 268435455; above, no complete header is ever seen (section 2.2.3 of MQTT 3.1.1) |
| Framing.VbiLenIsEncodedSize | src/MQTTPacket.c:430-443 | VBIlen is the encoded size exactly up to 268435455 |
| Packets.HeaderByte | src/MQTTPacket.c:359-370 | The four bit fields of the header byte come back independently |
| Packets.PublishIsRead | src/MQTTPacket.c:266-298 | The packet handed out for a PUBLISH is one reading of its bytes as topic, id when the QoS is not 0, and payload, and no other; it is rejected exactly when they are shorter than they announce |
| Packets.ConnackIsRead | src/MQTTPacket.c:486-505 | A CONNACK is read with its flags and return code, and rejected exactly when it has fewer than two bytes |
| Packets.SubackIsRead | src/MQTTPacket.c:546-584 | A SUBACK is read with its id and return codes, and rejected exactly when there is none |
| Packets.AckIsRead | src/MQTTPacket.c:334-357 | Any other acknowledgement is read with its id, and rejected exactly when that is not there |
| Packets.OthersAreNotRead | src/MQTTPacket.c:72-78 | Which types reach no parser, and which index past the table |
| Packets.TopicRoundTrip | src/MQTTPacket.c:266-298 | A topic of at most 65535 bytes comes back with what follows it, for every QoS; a longer one comes back shorter or not at all |
| Packets.BodyRoundTrip | src/MQTTPacket.c:266-357 | A PUBLISH or PUBACK body parses to what was sent, behind the first byte of the standard, exactly when the topic length fits |
| Packets.PacketRoundTrip | src/MQTTPacket.c:130-198 | The first frame of the wire bytes is the packet sent, whatever follows, if and only if the packet fits; its first byte has DUP, QoS and RETAIN of a PUBLISH by position (section 3.3.1 of MQTT 3.1.1), or is 0x40 for a PUBACK (section 3.4.1) |
| EndToEnd.StreamRoundTrip | src/MQTTPacket.c:266-407 | Any prefix of a stream of sent packets reads as the first of them, with the first byte of the standard and the same topics, ids and payloads, and as all of them when it is whole |
| EndToEnd.EndToEnd | src/MQTTPacket.c:38-407 | In any reachable states of writer and reader, under any splitting of writes and reads, the packets completed are the first packets accepted, with their flags, topics, ids and payloads |
| EndToEnd.DeliveredIsSent | src/MQTTProtocol.c:422-464 | The entry queued for a QoS 1 PUBLISH that was read carries the topic, payload, id and flags of the one sent |
| WritePath.Run | src/utils/Socket.c:608-662 | Exactly-once writes over any run of opens of descriptors below FD_SETSIZE, sends, continued writes and closes, with the result of each: the wire is a prefix of the packets whose send was not refused, in order, and all of them when nothing is pending; every step of the trace is as Perform says |
| WritePath.Perform | src/utils/Socket.c:608-662 | One event, exactly: a socket joins the log if and only if it is new and there is room, with the result of making it nonblocking; a packet joins the log if and only if its send is not refused, it is refused if and only if another is pending or writev fails, complete if and only if writev takes all of it; an unfinished write leaves only when tried |
| WritePath.SocketModule.WireIsPackets | src/utils/SocketBuffer.c:323-382 | The wire stops inside the last accepted packet only, and what is missing is what the pending record still holds |
| WritePath.SocketModule.Putdatas | src/utils/Socket.c:608-662 | Refuses while a write is pending, without a call of writev; otherwise one call whose answer decides between complete, pending and refused, and the concatenated buffers are accepted once |
| WritePath.SocketModule.WriteOrKeep | src/utils/Socket.c:635-659 | Complete when everything was taken, else one pending record with the right count in all three places |
| WritePath.SocketModule.SetAside | src/utils/SocketBuffer.c:323-347 | The three records of pending sockets get the socket together and agree |
| WritePath.Remaining | src/utils/Socket.c:970-983 | The rebuilt buffers concatenate to the packet without its first written bytes |
| WritePath.SocketModule.ContinueWrite | src/utils/Socket.c:961-1012 | One call of writev; the wire grows to exactly the new count; 1 exactly when the packet is whole; -1 exactly when writev fails, which gives only this socket up |
| WritePath.SocketModule.Drop | src/utils/SocketBuffer.c:379-382 | The socket leaves all three records of pending writes, which agree again |
| WritePath.SocketModule.ContinueWrites | src/utils/Socket.c:1052-1102 | The walk ends although the cursor may jump back; only writable sockets are tried and only tried ones leave; when none leaves all writable ones were tried; an error is reported exactly when a call of writev failed |
| WritePath.SocketModule.AddSocket | src/utils/Socket.c:163-196 | Registers a socket exactly when it is new and the list has room; the records agree then exactly when its number is below FD_SETSIZE; 0 for one already there, SOCKET_ERROR for a new one when the list is full, else the result of making it nonblocking, which is on record |
| WritePath.RegisterBeyondSet | src/utils/Socket.c:163-196 | The first socket ever registered may be 1024, which the descriptor set cannot hold: the records disagree |
| WritePath.SocketModule.Close | src/utils/Socket.c:715-747 | The socket leaves every record, that of pending connects included, the others keep theirs, and the result says whether it was there |
| WritePath.SocketModule.StartConnect | src/utils/Socket.c:911-927 | An open socket joins the record of connects under way, once |
| WritePath.SocketModule.IsReady | src/utils/Socket.c:265-273 | A socket being connected is ready once writable and leaves the record then; any other exactly when readable, writable and without pending output |
| WritePath.SocketModule.CloseClient | src/utils/Socket.c:721-747 | The round-robin iterator stays on its element and maxfdp1 is one more than the largest socket left |
| WritePath.LargestSocket | src/utils/Socket.c:735-744 | The largest element of the list |
| WritePath.SocketModule.NoPendingWrites | src/utils/Socket.c:568-571 | True exactly when no write is pending, though the search moves the list's cursor |
| WritePath.SocketModule.SendBuffers | src/MQTTPacket.c:97-155 | First byte, encoded length and buffers are handed over as one packet, or refused |
| WritePath.SocketModule.Sends | src/MQTTPacket.c:97-155 | A PUBLISH or PUBACK is handed over as one packet, the frame that the reader expects, with the first byte of the standard |
| ClientPackets.WriteConnect | src/MQTTPacket.c:445-484 | The computed size is exactly the size written, the contents are the CONNECT body, and it starts with the protocol name 00 04 4D 51 54 54 (section 3.1.2.1 of MQTT 3.1.1) |
| ClientPackets.ConnectRoundTrip | src/MQTTPacket.c:445-484 | The body reads back field by field, behind the bytes of the protocol name, exactly when every part fits its field (section 3.1 of MQTT 3.1.1) |
| ClientPackets.SendConnect | src/MQTTPacket.c:445-484 | A CONNECT is handed over as one packet that starts with 0x10, or refused |
| ClientPackets.ConnectFrameRoundTrip | src/MQTTPacket.c:445-484 | It is read from the front of the wire as it was given exactly when every part fits its field |
| ClientPackets.SubscribeLength | src/MQTTPacket.c:517-519 | The summed length is that of the body to be written |
| ClientPackets.WriteSubscribe | src/MQTTPacket.c:507-543 | Id and list fill the buffer exactly |
| ClientPackets.SubscribeRoundTrip | src/MQTTPacket.c:507-543 | The list reads back as given exactly when every topic and option fits (section 3.8.3 of MQTT 3.1.1) |
| ClientPackets.SendSubscribe | src/MQTTPacket.c:507-543 | A SUBSCRIBE is handed over as one packet that starts with 0x82, or 0x8A for a duplicate, or refused |
| ClientPackets.SubscribeFrameRoundTrip | src/MQTTPacket.c:507-543 | It is read from the front of the wire as it was given exactly when id, topics and options fit and all of it fits the length (section 3.8 of MQTT 3.1.1) |
| Writers.StringRoundTrip | src/MQTTPacket.c:208-264 | A length-prefixed string comes back exactly when its length fits two bytes |
| Writers.Writer.WriteInt4 | src/MQTTPacket.c:409-421 | The four bytes that truncating division of a C int leaves |
| Writers.Int4RoundTrip | src/MQTTPacket.c:409-421 | Reading them gives the value back exactly below 2^31 or for multiples of 2^24 |
| Properties.GetType | src/MQTTProperties.c:55-68 | The loop finds the first table entry with the identifier, or none |
| Properties.KindIsStandard | src/MQTTProperties.c:14-43 | The table has the identifiers of section 2.2.2.2 of MQTT 5.0, no others, and gives them the types of the standard |
| Properties.PropertyList.Add | src/MQTTProperties.c:78-138 | Appends a known property, keeps count within the allocated array and length equal to the counted total; an unknown identifier changes nothing |
| Properties.PropertyList.CopyOf | src/MQTTProperties.c:212-224 | A fresh list with equal contents, equal length and identical encoding |
| Properties.CountedIsEncoded | src/MQTTProperties.c:78-138 | The size counted for a property is at most its encoded size, and equal exactly when a variable integer fits |
| Properties.TotalIsEncoded | src/MQTTProperties.c:71-138 | The running length is the total encoded size exactly when every variable integer fits |
| Properties.WriteProperty | src/MQTTProperties.c:140-180 | Writes exactly the encoding of the property and returns its size |
| Properties.WriteProperties | src/MQTTProperties.c:183-210 | Writes length and properties; the result counts the length as one byte; the pointer advances by MQTTProperties_len exactly when everything fits the format |
| Properties.AdvanceIsLen | src/MQTTProperties.c:71-75 | The pointer advance is MQTTProperties_len exactly when everything fits the format |
| Properties.ResultIsAdvance | src/MQTTProperties.c:183-210 | The returned number is the advance exactly below 128 bytes of properties |
| Properties.BodyRoundTrip | src/MQTTProperties.c:140-180 | A property reads back in front of anything exactly when the format carries it (section 2.2.2 of MQTT 5.0) |
| Properties.ListRoundTrip | src/MQTTProperties.c:183-210 | A written list reads back property by property exactly when the format carries every one |
| Session.Perform | src/MQTTProtocol.c:87-321 | One event, exactly: the new state of every client, its queues, its acknowledgements and its histories; a publish gives back its fresh id or none, a message received is queued with its topic, payload, QoS, id and flags, a delivery gives out the entry at the head, and its return takes exactly that entry; an event that does not apply changes nothing |
| Session.RunAll | src/MQTTProtocol.c:87-321 | Over any run of any number of clients, whose trace is one such step with its outcome per event: ids distinct, deliveries complete and in order, every QoS 1 message acknowledged once and in order, no publication left when no client is; and, from the events alone, what a client received, acknowledged and has waiting is what came for it |
| Session.StepTracks | src/MQTTProtocol.c:182-253 | In any step of any client: the messages received carry the fields of the QoS 0 and 1 messages that came, in order; one PUBACK was made for each of QoS 1; the queue holds a PUBACK or PUBREC for exactly those that came behind pending output, in order; the QoS 2 ids are those that came |
| Session.ValidMeans | src/MQTTProtocol.c:36-321 | What every reachable state satisfies: ids distinct and from 1 to 65535; taken ++ queued = received; the PUBACKs made are the QoS 1 arrivals in order, and those not sent are the ones in the queue; the PUBRECs in the queue are the QoS 2 arrivals behind pending output in order; the inbound list is the last arrival per id in order of first arrival; stored publications are exactly those referred to, with one reference each; room for another id below 65534 messages |
| Session.FreeId | src/MQTTProtocol.c:36-50 | Ends; gives the first free id after the last one; gives 0 exactly when every other id is taken |
| Session.RefuseFreeId | src/MQTTProtocol.c:36-50 | A run after which an id is free and the next publish is refused: the starting id is never tried |
| Session.RoomForOneMore | src/MQTTProtocol.c:36-50 | With fewer than 65534 messages in flight an id is always found |
| Session.AllOthersTaken | src/MQTTProtocol.c:36-50 | A whole round of taken ids means every id but the starting one is in use |
| Session.ClientStates.AssignMsgId | src/MQTTProtocol.c:36-50 | An id not in flight, noted as the last given; nothing changes when there is none |
| Session.ClientStates.Publish | src/MQTTClient.c:397-448 | For any QoS above 0, one more message in flight with a fresh id and its own stored publication, or MAX_MESSAGES_INFLIGHT and no change |
| Session.ClientStates.StorePublication | src/MQTTProtocol.c:147-169 | A new publication with one reference |
| Session.ClientStates.RemovePublication | src/MQTTProtocol.c:172-180 | One reference less; the publication goes with the last |
| Session.ClientStates.HandlePuback | src/MQTTProtocol.c:255-278 | Removes exactly the QoS 1 message with the id and its publication, keeps the others in order; ignores unknown ids and QoS 2 messages |
| Session.ClientStates.HandlePublish | src/MQTTProtocol.c:182-253 | QoS 0 and 1 join the queue with every field of the message, QoS 1 is acknowledged once, sent or queued; QoS 2 is stored, with a PUBREC queued exactly behind pending output; nothing outbound and no other client changes |
| Session.ClientStates.SendPuback | src/MQTTProtocol.c:205-206 | The attempt to send a PUBACK goes on record and changes nothing else |
| Session.ClientStates.QueueAck | src/MQTTProtocol.c:280-292 | The acknowledgement joins the end of the queue and, a PUBACK, goes on record as queued |
| Session.ClientStates.StoreInbound | src/MQTTProtocol.c:207-248 | A QoS 2 message replaces the earlier one with its id in its place and drops that one's publication, or is appended; whether it came behind pending output goes on record |
| Session.ClientStates.ProcessPublication | src/MQTTProtocol.c:422-464 | The message joins the end of the queue with its topic, payload, QoS, retained flag, id and, for QoS 0 and 1, duplicate flag |
| Session.KeptIsNewest | src/MQTTProtocol.c:226-234 | The inbound list has each id once, and holds exactly the last arrivals |
| Session.KeptStaysInPlace | src/MQTTProtocol.c:226-234 | Every id stands where its first message stood: the ids of the list are those of the arrivals in order of first arrival |
| Session.ClientStates.BeginDelivery | src/MQTTClient.c:200-210 | The callback gets the head of the queue, which stays there and goes on record with its client; no second delivery starts meanwhile |
| Session.ClientStates.EndDelivery | src/MQTTClient.c:210-221 | Whatever happened during the callback, the entry that was handed out is still the head of its queue, and leaves it exactly when taken, unless its client has gone |
| Session.ClientStates.RemoveEntry | src/MQTTClient.c:210-221 | The search by address finds the entry handed out at the head and takes only it out |
| Session.DestroyInCallback | src/MQTTClient.c:200-221 | A run in which the client is destroyed during the callback and the delivery ends on a client that is gone |
| Session.ClientStates.Free | src/MQTTProtocol.c:294-321 | The client goes, in a callback or not, with all publications of its messages and no others |
| Session.DropOne | src/MQTTProtocol.c:172-180 | Dropping one reference and its publication together conserves the store |
| ListSpec.CachedSearchIsLinearSearch | src/utils/LinkedList.c:150-185 | The cache never changes whether something is found, and with a unique match not what |
| ListSpec.CacheIsInvisible | src/utils/LinkedList.c:150-185 | Search and linear search agree for every position of the cursor if and only if at most one element matches |
| ListSpec.CacheCanReturnALaterMatch | src/utils/LinkedList.c:150-185 | With two matches it can |
| LinkedList.List.AppendNode | src/utils/LinkedList.c:65-77 | The node is the new last element; links, ends, count and cursor stay right |
| LinkedList.List.Append | src/utils/LinkedList.c:86-92 | A new last element with this content; the cursor stays on its element |
| LinkedList.List.Insert | src/utils/LinkedList.c:103-127 | A new element in front of the index, or at the end; the cursor stays on its element |
| LinkedList.List.FindItem | src/utils/LinkedList.c:150-185 | Returns what the cached search finds and leaves the cursor on it, or changes nothing |
| LinkedList.List.Unlink | src/utils/LinkedList.c:197-232 | Removes exactly the found element; the cursor stays on its element or moves to the next |
| LinkedList.List.DetachHead | src/utils/LinkedList.c:264-282 | Takes the first element out and returns its content; a cursor on it moves on |
| LinkedList.List.PopTail | src/utils/LinkedList.c:302-320 | Takes the last element out and returns its content; a cursor on it moves back |
| LinkedList.List.Empty | src/utils/LinkedList.c:355-371 | The walk ends and leaves an empty list without a cursor |
| LinkedList.List.Next | src/utils/LinkedList.c:407-410 | The following element, or the first |
| LinkedList.List.Previous | src/utils/LinkedList.c:420-423 | The preceding element, or the last |
| ListSpec.AfterRemove | src/utils/LinkedList.c:197-232 | Where the cursor is after a removal, by the element it is on |
| Sha1.NextFromWindow | src/utils/SHA1.c:64-72 | The next schedule word comes from four words of the sixteen-word window (section 6.1.3 of FIPS 180-4) |
| Sha1.WindowMoves | src/utils/SHA1.c:64-72 | Overwriting the oldest word keeps the window on the last sixteen words |
| Sha1.CodeFIsF | src/utils/SHA1.c:64-86 | The code's choice and majority are those of the standard |
| Sha1.CodeSumIsRound | src/utils/SHA1.c:64-86 | The sum in the code's order, with the code's own rotation, functions and constants, is the one in the standard's |
| Sha1.LoadedIsBlockWord | src/utils/SHA1.c:61-62 | The swapped words of a little-endian memory are the big-endian words of the standard |
| Sha1.StoredIsInt4 | src/utils/SHA1.c:114-119 | The memory of a swapped register is its bytes, most significant first |
| Sha1.Context.RunRounds | src/utils/SHA1.c:64-86 | The in-place loop over five registers and sixteen words is the eighty rounds of the standard |
| Sha1.Context.ProcessBlock | src/utils/SHA1.c:49-91 | The block function of the standard for every chaining value and block (section 6.1.2 of FIPS 180-4) |
| Sha1.Context.Update | src/utils/SHA1.c:125-145 | The message grows by the data, whatever the split; only the filled part of the buffer counts |
| Sha1.Context.Final | src/utils/SHA1.c:93-123 | The hash of the message padded with the length the code computes |
| Sha1.PaddingIsStandard | src/utils/SHA1.c:93-123 | That padding is the standard's exactly below 2^29 bytes (section 5.1.1 of FIPS 180-4) |
| Sha1.DigestOf | src/utils/SHA1.c:32-145 | For any split of a message below 2^29 bytes the result is its SHA-1 digest |
| Utf8.CharValidate | src/utils/utf-8.c:65-109 | Accepts one character of its announced length exactly when some table row matches in signed comparison |
| Utf8.AcceptedIsWellFormed | src/utils/utf-8.c:43-54 | The signed table is the unsigned syntax of section 4 of RFC 3629 |
| Utf8.Validate | src/utils/utf-8.c:118-134 | Accepts a byte string exactly when it encodes some list of Unicode scalar values |
| Utf8.EncodingIsUnique | src/utils/utf-8.c:118-134 | That list is unique |
| WebSocket.PacketBuffers.BuildFrame | src/utils/WebSocket.c:81-177 | Header of the computed size in the shortest form and masked contents: all of them with a fresh key, those before the third and the last with a kept one |
| WebSocket.PacketBuffers.WriteHeader | src/utils/WebSocket.c:123-163 | The header bytes written are as many as computed and are those of the standard |
| WebSocket.PacketBuffers.UnmaskData | src/utils/WebSocket.c:180-189 | Every buffer is combined with the key from the given index on and the key is cleared |
| WebSocket.SendFrame | src/utils/WebSocket.c:81-189 | The wire reads by the standard as one final masked frame with the original payload, and unmasking restores the buffers |
| WebSocket.SendAgain | src/utils/WebSocket.c:81-189 | With a kept key the frame reads back as the data meant exactly when the skipped buffers were masked with this key at this index before |
| WebSocket.ResentPublish | src/MQTTPacket.c:372-400 | A PUBLISH framed again with a kept key has a plain id before its masked payload, and both read back exactly when the key is 0 over the id |
| WebSocketStandard.HeaderReadsBack | src/utils/WebSocket.c:61-177 | A header in the shortest form in front of masked data reads back as one frame, whatever follows (section 5.2 of RFC 6455) |
| WebSocketStandard.MaskTwice | src/utils/WebSocket.c:156-189 | Masking twice with one key and index is the identity (section 5.3 of RFC 6455) |
| Base64.Encode | src/utils/Base64.c:98-154 | Given room, exactly the padded text of section 4 of RFC 4648; what is left behind when room is short |
| Base64.Decode | src/utils/Base64.c:19-96 | The text of some data decodes to the data, with a terminator when there is room |
| Base64.IndicesAreSextets | src/utils/Base64.c:107-140 | The four table indices built with shifts and masks are the sextets of the standard |
| Base64.TableIsStandard | src/utils/Base64.c:100-103 | The table is the alphabet of RFC 4648 and its padding |
| Base64.EncodeLengthIsExact | src/utils/Base64.c:168-171 | The computed length is the text's exactly below 2^30 bytes |
| Base64.DecodeLengthIsExact | src/utils/Base64.c:157-166 | The length announced for a text is that of its data |
| Base64.RoundTrip | src/utils/Base64.c:19-171 | Buffers of the computed sizes are enough and decoding restores every byte string below 2^30 bytes |

## Left out

- WebSocket receive, upgrade and connect: nothing turns WebSocket on for the read path, so the read path is the one without it.
- QoS 0 PUBLISH to the server: for version 4 the branch writes nothing (src/MQTTPacket.c:372), so there is nothing to prove.
- The QoS 2 handshake behind the stored message (PUBREC, PUBREL, PUBCOMP) and the sending of queued acknowledgements: not implemented here.
- Packet types from 13 on that the dispatch lets through: they index past the thirteen-entry table; `Build` marks them `PastTable` and says no more.
- ReadPath.SocketReader.Factory: a whole frame whose body the parser rejects comes out as the result `BadPacket`; the code also reports SOCKET_ERROR then, with the same bytes consumed.
- The connect handshake, semaphores, time, threads, address resolution, logging, and the poll variants of the socket functions.
- Allocation failure, `free` and the `frees` flags: buffers are byte sequences owned by nobody.
- `List.size`, which removal never decreases, and content that is freed with its element.
- ReadPath.Serve: says nothing of what follows a read while a socket that has failed is open, or of socket 0; `CarelessRuns` shows what goes wrong, but not every such run does.
- ReadPath.SocketReader.Recv: answers anything a nonblocking socket may answer, and does not tell which error it was; the same holds for `Writev`.
- WritePath.Run: descriptors are below FD_SETSIZE; what FD_SET overwrites for a larger one is not modelled beyond the lost agreement that `AddSocket` states.
- WritePath.SocketModule.ContinueWrites: does not state which writable sockets are tried once a write is finished or given up, because the walk then goes on from the list's cursor, which may be null or behind; the callbacks it makes with its mutex free are not modelled.
- WritePath.SocketModule.Close: does not model the shutdown of the descriptor, a system call whose result is ignored.
- The select loop that picks the next ready socket: only its test, `IsReady`, and the iterator it keeps, in `CloseClient`.
- The lists in `ReadPath`, `WritePath` and `Session` are sequences or `ListView` values, not the linked class; `CachedSearchIsLinearSearch` and the contracts of `LinkedList.List` justify it where keys are unique, and aliasing between lists and their contents is not captured.
- Session.ClientStates.SendPuback: only the attempt is recorded; the packet handed down and the result, which changes no state, are not part of it.
- Session.ClientStates.EndDelivery: after the client has gone it ends as `Dangling`, where the code reads and writes freed memory.
- Calls of the library from inside a callback are events between the start and the end of a delivery.
- Session.ClientStates.Publish: the result of sending is not part of it, because the message stays in flight either way.
- Sha1: the machine is little-endian; on a big-endian one the swaps of the code do nothing.
- Properties.PropertyList.Add: fields of the value union are independent fields; only those of the property's kind are read.
- ClientPackets.WriteSubscribe: topics and options are one list of pairs, where the code walks two lists of equal length.
- WebSocket.PacketBuffers.BuildFrame: the bytes of `rand` are a parameter, and the data are shorter than 2^63 bytes.
- Base64.Decode: the text has bytes below 128, because the table is indexed with a signed char; counters do not wrap around.
- Bit operations on single bytes are written as arithmetic, with `Xor` and `Or` defined bit by bit.
