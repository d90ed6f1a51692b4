# Verified model of the MQTT client and the terminal console of the ARTIK 050 examples

A Dafny model of three parts of the ARTIK 050 examples, with proofs.

* **MQTT session and delivery.** `LinkedList` and `Session` model the fixed pool of session items on
  two intrusive circular lists, with real linked nodes and any capacity below 256.  `Manager` models
  the connection's event machine; `ManagerSpec` says what each event does as functions on values, and
  every method is proved against them.  `Reactions` says what each frame and each request leads to in
  terms of bytes, items and callbacks alone.  `SessionRuns` and `KeepAlive` prove what holds over every run
  of one client.  `Delivery` joins a publishing and a subscribing client by two FIFO channels that may
  lose any packet, with resends at any time, and proves exactly-once delivery at QoS 2.  Its steps
  are the event functions that the `Manager` methods are proved against.  `DeliveryQos0` proves that
  QoS 0 messages arrive at most once and in order, `DeliveryProgress` that a stored message can
  always still be completed.
* **MQTT frames.** `Bytes` and `Buffer` model the byte, bit and length macros over a buffer with a
  cursor; `PublishFrame`, `ConnectFrame`, `Receive` and `FrameLaws` model the frame writers and the
  receiver, with round trips, truncation detection and exact sizes.  `FrameLaws.WireCarriesArrival`
  ties the packets of `Delivery` to their bytes.
* **Console line editor.** `Terminal` models one row of unbounded width, `EditorSpec` the editor as a
  value, `History` the ring and `Console` the in-place editor with its incremental output.
  `EditorInput` says what each typed character and escape sequence does.
* **Hexadecimal reader.** `HexString`.

`dafny verify dfyconfig.toml` checks the project.

## Assumptions

* The application callback is registered, and the stored topic and payload are values: the lifetime of
  the pointers that the session keeps is not part of the model.
* The network may refuse any frame.  Every event stops at its first refused frame, so the number of
  frames taken during an event (`budget`) stands for every outcome.
* In `Delivery` traffic is one-way, an id is taken for a new message only when neither session and
  neither channel names it, and the subscriber has room for each new QoS 2 message.
  `SessionRuns.DuplicateSuppressedIffRoom` shows that the room is needed.  The channels keep their
  order, as TCP does.
* The results on inbound QoS 2 periods (`SessionRuns.InboundEntry`, `RoomOpensPeriods`,
  `DeliversFirstOfPeriod`) take inbound and outbound packet ids to be disjoint, which nothing in the
  protocol ensures: client and broker number their packets independently.
  `SessionRuns.SharedIdLosesBoth` shows that it is needed, and `DeliveredIffNoEntry` says, without it,
  when a QoS 2 PUBLISH is delivered.
* After a command callback the terminal is on a fresh row; the callback may overwrite the line buffer.

## Where code and documentation differ

The model follows the code.

* `mqtt_common.h:57` says that QoS 0 publishes raise no PUBLISHED event; `mqtt_manager.c:207-212` raises one, without a message id.
* The comment on `console_do_enter` says that an empty line repeats the last command; the handler that is installed (`js_console.c:119`) never lets an empty line get there.
* Session lookup ignores the type of the stored item (`mqtt_session.c:134-138`), so any acknowledgement releases an entry of its id.  An early PUBCOMP or a foreign acknowledgement therefore drops a stored QoS 2 publish, against section 4.3.3 of MQTT 3.1.1; `SessionRuns.OutgoingRun` gives the exact condition.
* The truncation check of PUBLISH takes a length byte from the buffer before it knows that the byte arrived (`mqtt_frame.c:301-314`): it reads one byte beyond the told ones in the cases of `FrameLaws.WalkLeavesToldBytes`, and it checks no length byte after the fourth.
* Against MQTT 3.1.1, keep-alive is always sent as 0 (`mqtt_frame.c:476`), PUBACK, PUBREC and PUBCOMP carry 2 in the reserved nibble (`mqtt_frame.c:565`, `592`, `646`), and session-present is read from bit 1 (`mqtt_frame.c:510`).
* `hex_str_to_int` takes punctuation for digits; `HexString.ReadsHexDigits` says which.  Of a string with no digit at its start it shifts a 32-bit zero by 32, which C leaves undefined; the model takes the result to be zero.
* A will QoS of 3, which MQTT does not allow, is sent as it is (`mqtt_frame.c:472`).

## Model

| member | source | states |
|---|---|---|
| `LinkedList.InitListHead` | ARTIK 050/example/mqtt/libraries/protocols/MQTT/linked_list.h:43-45 | the head becomes an empty ring |
| `LinkedList.ListInsert` | ARTIK 050/example/mqtt/libraries/protocols/MQTT/linked_list.h:53-61 | linking between two neighbours inserts at exactly that place of the ring, next and prev staying inverse |
| `LinkedList.ListAdd` | ARTIK 050/example/mqtt/libraries/protocols/MQTT/linked_list.h:71-74 | pushes at the front of the ring; only the head, its first neighbour and the entry change |
| `LinkedList.ListAddTail` | ARTIK 050/example/mqtt/libraries/protocols/MQTT/linked_list.h:84-87 | appends at the end of the ring |
| `LinkedList.ListDel` | ARTIK 050/example/mqtt/libraries/protocols/MQTT/linked_list.h:96-112 | takes the entry out of the ring, keeps the order of the rest and clears the entry's links |
| `LinkedList.ListEmpty` | ARTIK 050/example/mqtt/libraries/protocols/MQTT/linked_list.h:151-154 | true exactly for the empty ring |
| `LinkedList.Splice` | ARTIK 050/example/mqtt/libraries/protocols/MQTT/linked_list.h:156-168 | links the nodes of a nonempty ring in front of another ring's, in order, only four links changing |
| `LinkedList.ListSpliceInit` | ARTIK 050/example/mqtt/libraries/protocols/MQTT/linked_list.h:189-198 | joins two rings in order and leaves the first one an empty ring |
| `SessionSpec.FirstWith` | ARTIK 050/example/mqtt/libraries/protocols/MQTT/mqtt_session.c:131-147 | lookup is by packet id alone: the first item that carries it, found exactly when the id is live |
| `Session.Session.Init` | ARTIK 050/example/mqtt/libraries/protocols/MQTT/mqtt_session.c:56-71 | from any links at all, both lists are well formed, nothing is used and every pool item is free, last one first |
| `Session.Session.AddItem` | ARTIK 050/example/mqtt/libraries/protocols/MQTT/mqtt_session.c:73-119 | moves the first free item to the used tail with its contents; a full pool or an unsupported type leaves both lists exactly as they were; the two lists stay rings that hold every pool item once |
| `Session.Session.RemoveItem` | ARTIK 050/example/mqtt/libraries/protocols/MQTT/mqtt_session.c:121-150 | moves the first used item with the id to the front of the free list and keeps the rest in order; without one nothing changes; the two lists stay rings that hold every pool item once |
| `Session.Session.ItemExist` | ARTIK 050/example/mqtt/libraries/protocols/MQTT/mqtt_session.c:153-177 | true exactly when a tracked type is asked for and some used item carries the id |
| `Session.Session.IterateThroughItems` | ARTIK 050/example/mqtt/libraries/protocols/MQTT/mqtt_session.c:179-199 | visits the used items in list order and stops at the first one on which the callback fails |
| `Manager.Connection.HandleSendPublish` | ARTIK 050/example/mqtt/libraries/protocols/MQTT/mqtt_manager.c:186-213 | stores, sends and, at QoS 0, withdraws again; a QoS 0 publish under an id that is not live leaves the used and the free list exactly as they were, full pool included |
| `Manager.Connection.FinishPublish` | ARTIK 050/example/mqtt/libraries/protocols/MQTT/mqtt_manager.c:195-213 | the removal after a QoS 0 send undoes the add item by item |
| `Manager.Connection.HandleRecvPublish` | ARTIK 050/example/mqtt/libraries/protocols/MQTT/mqtt_manager.c:217-248 | answers by QoS, records a new QoS 2 id, and clears the payload exactly for a QoS 2 id that is already live |
| `Manager.Connection.HandleRecvPubrec` | ARTIK 050/example/mqtt/libraries/protocols/MQTT/mqtt_manager.c:288-309 | drops the entry of the id, sends PUBREL, and stores PUBREL unless the id is still live |
| `Manager.Connection.Resend` | ARTIK 050/example/mqtt/libraries/protocols/MQTT/mqtt_manager.c:343-438 | re-sends the used items in list order up to the first frame the network refuses, without touching the session |
| `Manager.Connection.Handle` | ARTIK 050/example/mqtt/libraries/protocols/MQTT/mqtt_manager.c:135-392 | every event takes session, heartbeat, frames and result to what the event functions say |
| `Manager.Connection.Dispatch` | ARTIK 050/example/mqtt/libraries/protocols/MQTT/mqtt_connection.c:225-453 | the same with the application callback that follows each event, Disconnected after an expired tick (`mqtt_manager.c:60-82`) included |
| `Reactions.AcknowledgementReaction` | ARTIK 050/example/mqtt/libraries/protocols/MQTT/mqtt_manager.c:252-341 | which callback each acknowledgement makes, what it is answered with, and that it drops the oldest item of its id, a PUBREC putting a PUBREL behind the rest unless the id is still there or the pool is full |
| `Reactions.PublishReaction` | ARTIK 050/example/mqtt/libraries/protocols/MQTT/mqtt_manager.c:217-248 | a PUBLISH is answered by its QoS and delivered, except at QoS 2 under an id that has an item; it is recorded exactly at QoS 2 under a new id with room |
| `Reactions.PingrespReaction` | ARTIK 050/example/mqtt/libraries/protocols/MQTT/mqtt_manager.c:343-354 | PINGRESP tries to send all items in order and changes none; CONNACK causes no event |
| `Reactions.SubscribeReaction` | ARTIK 050/example/mqtt/libraries/protocols/MQTT/mqtt_manager.c:162-184 | SUBSCRIBE and UNSUBSCRIBE go out as they were given and are stored behind the other items if there is room |
| `Reactions.SendPublishReaction` | ARTIK 050/example/mqtt/libraries/protocols/MQTT/mqtt_manager.c:186-215 | PUBLISH goes out as it was given; above QoS 0 it is stored behind the other items if there is room, at QoS 0 it is reported as published exactly if the network took it |
| `Reactions.ConnectReachesServer` | ARTIK 050/example/mqtt/libraries/protocols/MQTT/mqtt_connection.c:159-187 | the one frame that a connect request sends tells a server what the application gave: a password only with a user name, will options only with a will, keep-alive as 0; refused exactly for a will of QoS 3 |
| `Reactions.StoredIsSent` | ARTIK 050/example/mqtt/libraries/protocols/MQTT/mqtt_manager.c:162-341 | whatever any event puts into the session it also tries to send |
| `Reactions.FramesRestartReceiving` | ARTIK 050/example/mqtt/libraries/protocols/MQTT/mqtt_manager.c:217-346 | every event the receiver raises, PINGRESP included, puts the receive counter back to twice the interval; requests leave it alone |
| `Reactions.ReceiverRaises` | ARTIK 050/example/mqtt/libraries/protocols/MQTT/mqtt_frame.c:234-410 | the events the receiver raises are exactly all but the requests and the tick |
| `Reactions.OwnFramesRestartSending` | ARTIK 050/example/mqtt/libraries/protocols/MQTT/mqtt_manager.c:162-354 | outside ticks and CONNECT, the send counter restarts exactly when the event sends a frame of its own other than a QoS 0 PUBLISH; a resend does not restart it |
| `Reactions.TickReaction` | ARTIK 050/example/mqtt/libraries/protocols/MQTT/mqtt_manager.c:356-373 | a tick gives the connection up at zero receive counter and pings only otherwise, at zero send counter |
| `SessionRuns.StepRefinesAutomaton` | ARTIK 050/example/mqtt/libraries/protocols/MQTT/mqtt_manager.c:162-341 | for every id, each event steps a one-entry automaton: acknowledgements empty it whatever its type, PUBREC turns a held entry into PUBREL without needing room; and no id gets a second entry |
| `SessionRuns.RunSingle` | ARTIK 050/example/mqtt/libraries/protocols/MQTT/mqtt_manager.c:162-341 | over any run in which an id is never sent while live, it has at most one entry |
| `SessionRuns.OutgoingStages` | ARTIK 050/example/mqtt/libraries/protocols/MQTT/mqtt_manager.c:252-341 | at a stored PUBLISH an event leads to PUBLISH or PUBREL if and only if it is not an acknowledgement out of turn (PUBACK, SUBACK, UNSUBACK, PUBREL, or PUBCOMP before PUBREC), which drops it; PUBREL stays until PUBCOMP or such an acknowledgement |
| `SessionRuns.OutgoingRun` | ARTIK 050/example/mqtt/libraries/protocols/MQTT/mqtt_manager.c:186-341 | over every run that sends the id only when not live: a stored QoS 2 publish is PUBLISH until its first PUBREC, PUBREL until the next PUBCOMP and then gone, if and only if no acknowledgement comes out of turn |
| `SessionRuns.EarlyAckDropsPublish` | ARTIK 050/example/mqtt/libraries/protocols/MQTT/mqtt_manager.c:252-341 | the input on which the stages fail: one acknowledgement out of turn takes a stored QoS 2 publish straight out, and an early PUBACK or PUBCOMP reports it as published |
| `SessionRuns.PubrecKeepsTheLiveIds` | ARTIK 050/example/mqtt/libraries/protocols/MQTT/mqtt_manager.c:288-309 | a PUBREC for a live id always finds room for its PUBREL and changes nothing about any other id |
| `SessionRuns.InboundEntry` | ARTIK 050/example/mqtt/libraries/protocols/MQTT/mqtt_manager.c:217-328 | in any interleaving with disjoint directions, an inbound id is live exactly when a QoS 2 PUBLISH was recorded after its last PUBREL |
| `SessionRuns.RoomOpensPeriods` | ARTIK 050/example/mqtt/libraries/protocols/MQTT/mqtt_manager.c:234-242 | when no such PUBLISH meets a full pool, recorded means simply arrived |
| `SessionRuns.DeliversFirstOfPeriod` | ARTIK 050/example/mqtt/libraries/protocols/MQTT/mqtt_connection.c:225-244 | the callback gets exactly the first QoS 2 PUBLISH of each period between PUBRELs |
| `SessionRuns.DuplicateSuppressedIffRoom` | ARTIK 050/example/mqtt/libraries/protocols/MQTT/mqtt_manager.c:234-247 | a repeated QoS 2 PUBLISH is suppressed if and only if the first copy found room in the pool |
| `SessionRuns.StepRefinesEntries` | ARTIK 050/example/mqtt/libraries/protocols/MQTT/mqtt_manager.c:162-341 | for every id and any session, fresh ids or not, what each event does to the list of entries under that id: sends append, acknowledgements drop the oldest whatever it is |
| `SessionRuns.RunRefinesEntries` | ARTIK 050/example/mqtt/libraries/protocols/MQTT/mqtt_manager.c:162-341 | the same over every run: the entries of an id are the fold of the events that name it |
| `SessionRuns.DeliveredIffNoEntry` | ARTIK 050/example/mqtt/libraries/protocols/MQTT/mqtt_connection.c:225-244 | in any run at all, directions disjoint or not, an arriving QoS 2 PUBLISH is delivered if and only if no entry of any kind holds its id |
| `SessionRuns.SharedIdLosesBoth` | ARTIK 050/example/mqtt/libraries/protocols/MQTT/mqtt_manager.c:217-328 | why the directions must be disjoint: a QoS 2 PUBLISH arriving under a live outgoing id is answered but never delivered, and its PUBREL drops the outgoing entry |
| `SessionRuns.StoredPacketSurvives` | ARTIK 050/example/mqtt/libraries/protocols/MQTT/mqtt_manager.c:343-354 | a stored packet stays unchanged through every run without an event that releases its id, and each fully accepted PINGRESP resend is the whole session in order, the packet included |
| `SessionRuns.PublishesStayInSendOrder` | ARTIK 050/example/mqtt/libraries/protocols/MQTT/mqtt_manager.c:186-215 | in every run, with no assumption at all, stored PUBLISH entries are in the order they were sent (section 4.6 of MQTT 3.1.1) |
| `SessionRuns.Qos0LeavesNoTraceIffFresh` | ARTIK 050/example/mqtt/libraries/protocols/MQTT/mqtt_manager.c:200-206 | a QoS 0 publish leaves the session as it was if and only if its id is not live |
| `SessionRuns.RunHasNoQos0` | ARTIK 050/example/mqtt/libraries/protocols/MQTT/mqtt_manager.c:186-206 | sending only fresh ids keeps QoS 0 entries out of the session in every run |
| `KeepAlive.CountersInClosedForm` | ARTIK 050/example/mqtt/libraries/protocols/MQTT/mqtt_manager.c:84-128 | after every run, recv counter = 2K minus ticks since the last receive (never below 0), send counter = K minus ticks since the last counted send or ping, and at least 1 |
| `KeepAlive.ExpiresOnTick2K` | ARTIK 050/example/mqtt/libraries/protocols/MQTT/mqtt_manager.c:356-363 | a tick reports the dead connection exactly from the 2K-th tick without a receive on |
| `KeepAlive.SendsEveryKTicks` | ARTIK 050/example/mqtt/libraries/protocols/MQTT/mqtt_manager.c:364-371 | while alive, any stretch of a run with K ticks holds a ping or a counted send |
| `Delivery.NextKeeps` | ARTIK 050/example/mqtt/libraries/protocols/MQTT/mqtt_manager.c:186-354 | every send, arrival, loss and resend of two connected clients keeps the delivery invariant of every id |
| `Delivery.NextLogsGood` | ARTIK 050/example/mqtt/libraries/protocols/MQTT/mqtt_connection.c:225-377 | every delivery and completion that an action logs is a good one |
| `Delivery.EveryRunIsGood` | ARTIK 050/example/mqtt/libraries/protocols/MQTT/mqtt_manager.c:186-341 | over lossy FIFO channels and resends at any time, above QoS 0: a delivery is of the very message last sent under its id and at QoS 2 the first; PUBLISHED follows at least one delivery at QoS 1 and exactly one at QoS 2 (section 4.3 of MQTT 3.1.1) |
| `Delivery.AtMostOnce` | ARTIK 050/example/mqtt/libraries/protocols/MQTT/mqtt_manager.c:217-250 | each QoS 2 message is delivered at most once, in every run |
| `Delivery.NothingStoredIsLost` | ARTIK 050/example/mqtt/libraries/protocols/MQTT/mqtt_manager.c:343-352 | a stored message that was not delivered yet is among the frames of every PINGRESP resend |
| `DeliveryQos0.Qos0ArrivesInOrder` | ARTIK 050/example/mqtt/libraries/protocols/MQTT/mqtt_manager.c:186-250 | in every run the QoS 0 messages delivered are a subsequence of those sent: each sending is delivered at most once, in order, and none is invented (section 4.3.1 of MQTT 3.1.1) |
| `DeliveryProgress.UnfinishedIsHeld` | ARTIK 050/example/mqtt/libraries/protocols/MQTT/mqtt_manager.c:186-341 | in every run, a message above QoS 0 that was stored is held by the publisher, as PUBLISH or as PUBREL, until PUBLISHED is reported for it |
| `DeliveryProgress.CanMakeRoom` | ARTIK 050/example/mqtt/libraries/protocols/MQTT/mqtt_manager.c:288-328 | a subscriber without room can always be made to release an entry, with nothing happening to another id or to the application |
| `DeliveryProgress.HeldMessageCanComplete` | ARTIK 050/example/mqtt/libraries/protocols/MQTT/mqtt_manager.c:217-354 | from every reachable state, whatever is in flight and however full the subscriber (of at least one item, for QoS 2), some continuation delivers the very message held under an id (at QoS 2 unless it was delivered before), reports it as published, and leaves neither session holding the id |
| `Bytes.ShortIsBigEndian` | ARTIK 050/example/mqtt/libraries/protocols/MQTT/mqtt_frame.c:40-47 | a 16-bit value is written high byte first (section 1.5.2 of MQTT 3.1.1) |
| `Bytes.ShortRoundTrip` | ARTIK 050/example/mqtt/libraries/protocols/MQTT/mqtt_frame.c:40-133 | a 16-bit value written high byte first reads back |
| `Bytes.LengthFieldEnds` | ARTIK 050/example/mqtt/libraries/protocols/MQTT/mqtt_frame.c:70-167 | the length field the writer emits delimits itself, whatever follows |
| `Bytes.LengthRoundTrip` | ARTIK 050/example/mqtt/libraries/protocols/MQTT/mqtt_frame.c:70-167 | the 32-bit reader loop inverts the writer loop for every 32-bit value without touching what follows (section 2.2.3 of MQTT 3.1.1) |
| `Bytes.LengthIsBase128` | ARTIK 050/example/mqtt/libraries/protocols/MQTT/mqtt_frame.c:70-83 | the length field has seven bits a byte, least significant first, 128 added to all but the last (section 2.2.3 of MQTT 3.1.1) |
| `Bytes.AccumulatesSpelled` | ARTIK 050/example/mqtt/libraries/protocols/MQTT/mqtt_frame.c:155-167 | in any field at all, minimal or not, the reader finds the length it spells modulo 2^32 |
| `Bytes.LengthIsMinimal` | ARTIK 050/example/mqtt/libraries/protocols/MQTT/mqtt_frame.c:70-83 | no field spells the same length in fewer bytes than the writer's |
| `Bytes.LadderIsLengthSize` | ARTIK 050/example/mqtt/libraries/protocols/MQTT/mqtt_frame.c:320-336 | the receiver's size ladder is the number of length bytes if and only if the length is at most 268435455 |
| `Buffer.Buffer.PutOctet` | ARTIK 050/example/mqtt/libraries/protocols/MQTT/mqtt_frame.c:32-38 | writes one byte at the cursor, all other bytes unchanged |
| `Buffer.Buffer.PutShort` | ARTIK 050/example/mqtt/libraries/protocols/MQTT/mqtt_frame.c:40-47 | writes the two bytes of the value, all other bytes unchanged |
| `Buffer.Buffer.PutString` | ARTIK 050/example/mqtt/libraries/protocols/MQTT/mqtt_frame.c:61-68 | writes length prefix and string, all other bytes unchanged |
| `Buffer.Buffer.PutVariableLength` | ARTIK 050/example/mqtt/libraries/protocols/MQTT/mqtt_frame.c:70-83 | the loop writes exactly the base-128 field and counts its bytes |
| `Buffer.Buffer.PutBit` | ARTIK 050/example/mqtt/libraries/protocols/MQTT/mqtt_frame.c:86-93 | sets one bit of the byte at the cursor in place; no other bit of it and no other byte changes |
| `Buffer.Buffer.Put2Bit` | ARTIK 050/example/mqtt/libraries/protocols/MQTT/mqtt_frame.c:95-103 | stores two bits in the byte at the cursor in place; no other bit of it and no other byte changes |
| `Buffer.Buffer.Put4Bit` | ARTIK 050/example/mqtt/libraries/protocols/MQTT/mqtt_frame.c:105-113 | stores a nibble in the byte at the cursor in place; the other nibble and all other bytes stay |
| `Buffer.Buffer.GetOctet` | ARTIK 050/example/mqtt/libraries/protocols/MQTT/mqtt_frame.c:118-124 | reads the byte at the cursor |
| `Buffer.Buffer.GetShort` | ARTIK 050/example/mqtt/libraries/protocols/MQTT/mqtt_frame.c:126-133 | reads the value of the next two bytes |
| `Buffer.Buffer.GetString` | ARTIK 050/example/mqtt/libraries/protocols/MQTT/mqtt_frame.c:146-152 | reads as many bytes as the length prefix says |
| `Buffer.Buffer.GetVariableLength` | ARTIK 050/example/mqtt/libraries/protocols/MQTT/mqtt_frame.c:155-167 | stops behind the first byte without the continuation bit with the 32-bit accumulated value |
| `PublishFrame.DeclaredLengthIsExact` | ARTIK 050/example/mqtt/libraries/protocols/MQTT/mqtt_frame.c:515-535 | the declared remaining length is the number of bytes after the length field |
| `PublishFrame.HeaderIsOverwritten` | ARTIK 050/example/mqtt/libraries/protocols/MQTT/mqtt_frame.c:522-525 | the four bit fields overwrite the whole first byte, whatever was there, with the layout of section 3.3.1 of MQTT 3.1.1 |
| `PublishFrame.PutPublish` | ARTIK 050/example/mqtt/libraries/protocols/MQTT/mqtt_frame.c:515-535 | writes exactly the PUBLISH bytes over any prior contents and leaves the rest alone |
| `PublishFrame.PublishLayout` | ARTIK 050/example/mqtt/libraries/protocols/MQTT/mqtt_frame.c:515-535 | the frame as section 3.3 of MQTT 3.1.1 lays it out, in numbers: type and flags, base-128 length of the body, topic, packet id above QoS 0, payload |
| `PublishFrame.GetPublish` | ARTIK 050/example/mqtt/libraries/protocols/MQTT/mqtt_frame.c:537-560 | reads flags, topic, packet id and payload where the frame has them |
| `PublishFrame.PublishRoundTrip` | ARTIK 050/example/mqtt/libraries/protocols/MQTT/mqtt_frame.c:515-560 | a written PUBLISH reads back with the same flags, topic, payload and, above QoS 0, packet id, whatever follows |
| `PublishFrame.WrittenThenRead` | ARTIK 050/example/mqtt/libraries/protocols/MQTT/mqtt_frame.c:515-560 | the same through a buffer at any place and with any prior contents |
| `Receive.CheckLength` | ARTIK 050/example/mqtt/libraries/protocols/MQTT/mqtt_frame.c:301-316 | the incremental length check agrees with the abstract walk and restores the cursor when it passes |
| `Receive.GetAck` | ARTIK 050/example/mqtt/libraries/protocols/MQTT/mqtt_frame.c:572-587 | reads the packet id behind type and size, as all acknowledgement readers do |
| `Receive.ReceivePublish` | ARTIK 050/example/mqtt/libraries/protocols/MQTT/mqtt_frame.c:289-342 | refuses or passes on a PUBLISH with the size the ladder gives |
| `Receive.ReceiveFrame` | ARTIK 050/example/mqtt/libraries/protocols/MQTT/mqtt_frame.c:234-410 | for every type, passes on the decoded frame and its size or returns the error |
| `Reactions.SmallFramesAreRead` | ARTIK 050/example/mqtt/libraries/protocols/MQTT/mqtt_frame.c:251-408 | every frame but PUBLISH is read by its packet type from the told bytes alone, with its id high byte first, its exact size, and an error exactly if it was not told as a whole or has no such type |
| `Reactions.AcknowledgementIsRaised` | ARTIK 050/example/mqtt/libraries/protocols/MQTT/mqtt_frame.c:253-390 | PUBACK, PUBREC, PUBREL, PUBCOMP, SUBACK and UNSUBACK bytes each raise their own event with the id in them |
| `Reactions.AnyTruncationIsDetected` | ARTIK 050/example/mqtt/libraries/protocols/MQTT/mqtt_frame.c:251-408 | told any proper part of any frame, the receiver returns the error; only a PUBLISH length field can lead it beyond the told bytes |
| `FrameLaws.ScanDecides` | ARTIK 050/example/mqtt/libraries/protocols/MQTT/mqtt_frame.c:301-314 | from any stage of the walk: it passes exactly when enough bytes were told, and needs a byte beyond the told ones exactly when these end inside the length field with the length zero so far |
| `FrameLaws.ScanOfAnyField` | ARTIK 050/example/mqtt/libraries/protocols/MQTT/mqtt_frame.c:301-314 | over any bytes at all, the walk gives up exactly when one of the first four field bytes already makes the frame longer than what was told |
| `FrameLaws.TruncationIsDetected` | ARTIK 050/example/mqtt/libraries/protocols/MQTT/mqtt_frame.c:289-316 | told any proper part of an encoded PUBLISH, the receiver returns the error, whatever lies beyond that part; with nothing beyond it in the buffer, it does so without leaving the buffer if and only if the told part holds the whole length field or a length byte other than 0x80 |
| `FrameLaws.WalkLeavesToldBytes` | ARTIK 050/example/mqtt/libraries/protocols/MQTT/mqtt_frame.c:301-314 | the walk reads one byte beyond the told ones if and only if these end inside the length field and every length byte among them is 0x80; so it does for one told byte, and for two of a PUBLISH of remaining length 128 |
| `FrameLaws.WholePublishPasses` | ARTIK 050/example/mqtt/libraries/protocols/MQTT/mqtt_frame.c:289-342 | told the whole PUBLISH, it passes the message on and reports the exact encoded length |
| `FrameLaws.SizeIsExact` | ARTIK 050/example/mqtt/libraries/protocols/MQTT/mqtt_frame.c:251-400 | every well-formed broker frame is taken for what it is with its exact encoded length; session-present comes from bit 1 |
| `FrameLaws.StreamSplitsAtFrames` | ARTIK 050/example/mqtt/libraries/protocols/MQTT/mqtt_frame.c:251-408 | advancing by the reported size over any concatenation of frames yields the original list |
| `FrameLaws.PutAck` | ARTIK 050/example/mqtt/libraries/protocols/MQTT/mqtt_frame.c:562-651 | PUBACK, PUBREC, PUBREL and PUBCOMP are written over any prior contents, with 2 in the reserved nibble |
| `Reactions.AckLayout` | ARTIK 050/example/mqtt/libraries/protocols/MQTT/mqtt_frame.c:562-651 | byte by byte: 16 times the packet type plus 2, length 2, packet id high byte first |
| `FrameLaws.WireCarriesArrival` | ARTIK 050/example/mqtt/libraries/protocols/MQTT/mqtt_frame.c:289-390 | the bytes one client writes cause at the other the very event the delivery model assumes |
| `ConnectFrame.DeclaredLengthIsExact` | ARTIK 050/example/mqtt/libraries/protocols/MQTT/mqtt_frame.c:437-494 | for every version and flag combination the declared length equals the bytes emitted |
| `ConnectFrame.FlagsAreOverwritten` | ARTIK 050/example/mqtt/libraries/protocols/MQTT/mqtt_frame.c:469-475 | the seven bit fields overwrite the whole flags byte, whatever was there |
| `ConnectFrame.PutConnect` | ARTIK 050/example/mqtt/libraries/protocols/MQTT/mqtt_frame.c:437-495 | writes exactly the CONNECT bytes over any prior contents |
| `ConnectFrame.PreambleLayout` | ARTIK 050/example/mqtt/libraries/protocols/MQTT/mqtt_frame.c:459-476 | protocol name and level, flags and a keep-alive of 0, byte by byte, for both versions |
| `ConnectFrame.PayloadLayout` | ARTIK 050/example/mqtt/libraries/protocols/MQTT/mqtt_frame.c:477-493 | client id, will topic, will message, user name and password in this order, as far as their flags are set |
| `ConnectFrame.ConnectRoundTrip` | ARTIK 050/example/mqtt/libraries/protocols/MQTT/mqtt_connection.c:159-187 | a server reading by section 3.1 of MQTT 3.1.1, or its MQIsdp variant, recovers the normalised arguments; keep-alive arrives as 0 and the will QoS as its low two bits; it refuses the frame if and only if these say 3 |
| `History.History.StoreLine` | ARTIK 050/example/terminal_console/js_console.c:163-174 | the ring holds the last stored lines, newest first, the oldest dropped when it is full |
| `History.History.LoadLine` | ARTIK 050/example/terminal_console/js_console.c:140-151 | loads the line of that age, or an empty one beyond the stored lines |
| `History.SlotsShift` | ARTIK 050/example/terminal_console/js_console.c:148-167 | moving on by one row moves every line one place back and reaches only the row of the oldest |
| `Console.Console.constructor` | ARTIK 050/example/terminal_console/js_console.c:282-329 | starts with an empty line, no history and the prompt on the row |
| `Console.Console.LoadLine` | ARTIK 050/example/terminal_console/js_console.c:388-429 | the line becomes the history line and the row shows it with only blanks after it, however long the old line was |
| `Console.Console.ShiftIn` | ARTIK 050/example/terminal_console/js_console.c:440-453 | the shift loop is insertion of the character at the cursor; the line stays NUL-terminated |
| `Console.Console.ShiftOut` | ARTIK 050/example/terminal_console/js_console.c:473-483 | the shift loop is deletion at the cursor; the line stays NUL-terminated |
| `Console.Console.InsertChar` | ARTIK 050/example/terminal_console/js_console.c:440-464 | inserts at the cursor, and the incremental output equals a full redraw |
| `Console.Console.RemoveChar` | ARTIK 050/example/terminal_console/js_console.c:473-496 | deletes at the cursor, and the incremental output equals a full redraw |
| `Console.InsertRedraws` | ARTIK 050/example/terminal_console/js_console.c:455-463 | printing the new tail and moving back shows the new line with the cursor behind the character |
| `Console.RemoveRedraws` | ARTIK 050/example/terminal_console/js_console.c:485-495 | printing the shorter tail, wiping one cell and moving back shows the new line |
| `Console.LoadRedraws` | ARTIK 050/example/terminal_console/js_console.c:406-411 | return, prompt and line leave at most the end of a longer old line |
| `Console.Console.DoHome` | ARTIK 050/example/terminal_console/js_console.c:505-510 | moves the cursor to the start; reprinting the prompt changes nothing else on the row |
| `Console.Console.DoEnd` | ARTIK 050/example/terminal_console/js_console.c:519-523 | moves the cursor to the end; reprinting the tail changes nothing on the row |
| `Console.Console.DoUp` | ARTIK 050/example/terminal_console/js_console.c:532-542 | one line further back in the history, or nothing at its end |
| `Console.Console.DoDown` | ARTIK 050/example/terminal_console/js_console.c:551-561 | one line forward, down to an empty one, or nothing |
| `Console.Console.DoLeft` | ARTIK 050/example/terminal_console/js_console.c:570-581 | cursor one to the left, on the row too |
| `Console.Console.DoRight` | ARTIK 050/example/terminal_console/js_console.c:590-601 | cursor one to the right, on the row too |
| `Console.Console.DoDelete` | ARTIK 050/example/terminal_console/js_console.c:610-621 | deletes under the cursor and leaves the history |
| `Console.Console.DoBackspace` | ARTIK 050/example/terminal_console/js_console.c:630-643 | deletes before the cursor and leaves the history |
| `Console.Console.DoEnter` | ARTIK 050/example/terminal_console/js_console.c:655-688 | stores and runs a line that is more than delimiters, and starts a fresh prompt |
| `Console.Console.DoNewlineWithoutRepeat` | ARTIK 050/example/terminal_console/js_console.c:776-793 | an empty line only starts a fresh prompt |
| `Console.Console.ProcessEscSeq` | ARTIK 050/example/terminal_console/js_console.c:709-773 | each final character acts as its key, the digit before a tilde deciding; the sequence goes on exactly for its middle characters |
| `Console.Console.ProcessChar` | ARTIK 050/example/terminal_console/js_console.c:807-882 | after every character the row equals a full redraw of prompt and line with the cursor in place, the line fits and is printable, and the editor has taken the character's step |
| `Console.Console.Run` | ARTIK 050/example/terminal_console/js_console.c:251-281 | the same for every input, one character after the other |
| `EditorInput.ReturnRuns` | ARTIK 050/example/terminal_console/js_console.c:655-688 | outside an escape sequence, carriage return gives the line to the callback and puts it in front of the history exactly if some character of it is no delimiter; the next line starts empty |
| `EditorInput.ReturnRunsTyped` | ARTIK 050/example/terminal_console/js_console.c:655-688 | the same after all input |
| `EditorInput.TypedTextIsRun` | ARTIK 050/example/terminal_console/js_console.c:807-882 | a text typed on an empty line and then Return gives exactly that text to the callback, whatever came before |
| `EditorInput.RepeatingRunsLast` | ARTIK 050/example/terminal_console/js_console.c:655-688 | the newline rule that is not installed runs the last entered line again for an empty one |
| `EditorInput.ControlMoves` | ARTIK 050/example/terminal_console/js_console.c:844-855 | Ctrl-B, Ctrl-F, Ctrl-A and Ctrl-E move the cursor one left, one right, to the start and to the end |
| `EditorInput.ControlDeletes` | ARTIK 050/example/terminal_console/js_console.c:834-858 | Ctrl-D deletes under the cursor, backspace and rubout before it |
| `EditorInput.ControlRecalls` | ARTIK 050/example/terminal_console/js_console.c:838-843 | Ctrl-P recalls the next older history line, Ctrl-N the next newer or an empty one |
| `EditorInput.PrintableInserts` | ARTIK 050/example/terminal_console/js_console.c:859-876 | a printable character goes in at the cursor exactly if it and the terminator fit |
| `EditorInput.OthersDoNothing` | ARTIK 050/example/terminal_console/js_console.c:815-880 | escape starts a sequence; the line feed and all other characters change nothing |
| `EditorInput.SequenceMoves` | ARTIK 050/example/terminal_console/js_console.c:709-773 | escape, any middle characters, and D, C, F or H move the cursor left, right, to the end and to the start |
| `EditorInput.SequenceRecalls` | ARTIK 050/example/terminal_console/js_console.c:709-773 | A recalls the next older history line and B the next newer |
| `EditorInput.SequenceTilde` | ARTIK 050/example/terminal_console/js_console.c:709-773 | a tilde means Home, Delete or End after 1, 3 or 4, and nothing otherwise |
| `EditorInput.SequenceIgnored` | ARTIK 050/example/terminal_console/js_console.c:709-773 | any other character ends the sequence without effect |
| `EditorSpec.EveryInputIsSound` | ARTIK 050/example/terminal_console/js_console.c:807-882 | after every input the line is printable and fits, the cursor is inside it, and a current history line is shown unedited |
| `EditorSpec.EmptyLineIsFresh` | ARTIK 050/example/terminal_console/js_console.c:776-793 | an empty line always means that no history line is current, although the empty newline does not reset it |
| `EditorSpec.HistoryIsLastEntered` | ARTIK 050/example/terminal_console/js_console.c:163-174 | after every input the history is the last history_length entered lines, newest first |
| `EditorSpec.BackspacesUndoTyping` | ARTIK 050/example/terminal_console/js_console.c:440-643 | as many Backspaces as characters typed take a whole text out again, anywhere in the line |
| `EditorSpec.LeftsThenDeletesAreBackspaces` | ARTIK 050/example/terminal_console/js_console.c:570-643 | any number of steps to the left and then as many Deletes equals as many Backspaces |
| `EditorSpec.LeftsAndRightsUndo` | ARTIK 050/example/terminal_console/js_console.c:570-601 | any number of Lefts and then as many Rights, or the other way round, leads back |
| `EditorSpec.HomeAndEndAreSteps` | ARTIK 050/example/terminal_console/js_console.c:505-601 | Home is as many Lefts as there are characters before the cursor, End as many Rights as there are behind it |
| `EditorSpec.DownsUndoUps` | ARTIK 050/example/terminal_console/js_console.c:388-561 | Up and then Down any number of times leads back to the history line it left, with the cursor at its end; a line still being typed is lost |
| `Terminal.ShownIsRedrawn` | ARTIK 050/example/terminal_console/js_console.c:406-411 | a row that shows prompt and line is what printing them on a fresh row gives, up to blanks at the end |
| `HexString.OrOfDisjoint` | ARTIK 050/example/terminal_console/js_console.c:905-909 | oring a digit into the free low bits is adding it |
| `HexString.ReadsHexDigits` | ARTIK 050/example/terminal_console/js_console.c:903-910 | hex digits are read at their value; beyond them exactly the punctuation from '"' to '/' and from ':' to '?' is taken too |
| `HexString.HexStrToInt` | ARTIK 050/example/terminal_console/js_console.c:896-920 | for every string, the shift-accumulate loop yields the positional base-16 value of the characters it takes, at most eight, as a signed 32-bit number |
| `HexString.HexStringsReadWhole` | ARTIK 050/example/terminal_console/js_console.c:896-920 | of a string of hex digits the first min(length, 8) are taken, upper or lower case, at their positional value |

## Left out

- Handle: a CONNACK never reaches the manager; SEND_DISCONNECT and CONNECTION_CLOSE (timer, socket and semaphore teardown) are not modelled.
- ReceiveFrame: the NULL buffer that reports a closed connection is not modelled, and a PUBLISH that passes the length check must have its topic and packet id inside its declared length and be in the buffer as a whole; the source reads such malformed frames without a check.
- ReceivePublish: the same malformed PUBLISH frames are excluded.
- GetPublish: the same malformed PUBLISH frames are excluded.
- CheckLength: the length walk must end inside the buffer; what the source reads behind the buffer's end is not modelled.
- constructor: the console's line length is at least 1; with 0 the source has no line buffer to keep terminated.
- WrittenThenRead: the frame must fit the buffer, as the source assumes of its 4 KB frames.
- EveryRunIsGood: heartbeat ticks are not actions of the two-client system, since they touch neither session; messages have QoS 0, 1 or 2.
- StreamSplitsAtFrames: is about the receiver alone; the network loop of mqtt_network.c advances by the received length instead.
- StoreLine: the history store is an array of rows instead of one flat array, and the 32-bit sum of row indices is taken not to overflow.
- Session items keep type and arguments as one tagged value; an item on the free list keeps no stale type.
- SUBSCRIBE, UNSUBSCRIBE, PINGREQ and DISCONNECT frame writers: plain instances of the modelled macros.
- Sockets, TLS, threads, queues, packet allocation and the application-thread session reset: calls into code that is not shown.
- Argument packing in mqtt_api.c and the 16-bit wrap of the packet id counter: ids are inputs, with freshness stated where it is needed.
- The console's UART transport, thread start and stop, str_to_int with atoi, and terminal line wrapping.
- The sensor, PWM, GPIO, TCP, UART and thread examples and the ARTIK 053 and 710 code: hardware access with little logic.
