# WiLED protocol engine, modelled in Dafny

This project models the `WiLEDProto` class of the WiLED lighting project. It
builds and parses the frames of the WiLED Protocol, keeps this node's reset and
message counters, and keeps a registry of peers. For a known peer the validator
compares the stored (reset counter, message counter) pair with the frame's and
records a verdict. `processMessage` still returns SUCCESS for every Beacon,
and a new peer's first frame can be replayed once (see "## Left out").

The frame layout is:
- byte 0 is the magic number `0xAA`;
- bytes 1-2 are the source address;
- bytes 3-4 are the destination address;
- bytes 5-6 are the sender's reset counter;
- bytes 7-8 are the sender's message counter;
- byte 9 is the message type;
- the payload follows. A Beacon has a 4-byte uptime payload.

Multi-byte fields are big-endian.

The engine is an immutable record, and every public method is a pure function
from the engine before to the engine after. The modules are:

- `Wire`: bytes and 16/32-bit words as bounded integers, the big-endian split
  and join, and the 16-bit counter increment.
- `Codes`: the return codes (`WiLP_RETURN_*`) and an `Option` type.
- `Frame`: the frame layout and the header codec, plus the byte-level builders
  behind `__setTypeByte`, `__setDestinationByte`, `__setPayloadByte`,
  `sendMessageBeacon` and `copyToBuffer`.
- `Storage`: the storage callbacks. They are three flags saying which callbacks
  are present, plus a log of the writes and commits they would perform.
- `PeerRegistry`: the parallel arrays of addresses, reset counters and message
  counters, as one sequence of slots plus the count of slots in use.
- `Validator`: `__checkAndUpdateMessageCounter`.
- `Engine`: the constructor, `initStorage`, `processMessage`,
  `sendMessageBeacon`, `copyToBuffer` and the `getLastReceived*` accessors.
- `EngineFacts`: properties that connect several operations.

The `getLastReceived*` accessors (`Engine.LastReceivedType` and its siblings)
just read the recorded fields. What they return is stated through
`Engine.Process` and `EngineFacts.BeaconReachesPeer`.

## Model

| member | source | states |
|---|---|---|
| Wire.ToBe32 | libraries/WiLEDProto/WiLEDProto.cpp:134-138 | the four bytes `u>>24, u>>16, u>>8, u` (each truncated to 8 bits) reassemble big-endian to `u` |
| Wire.SplitJoin32 | libraries/WiLEDProto/WiLEDProto.cpp:134-138 | four bytes read as a big-endian 32-bit value and split again by the four shifts give back the same four bytes, so with `Wire.ToBe32` the byte layout and the uptime determine each other |
| Wire.Inc16 | libraries/WiLEDProto/WiLEDProto.cpp:151-153 | a 16-bit counter increments by one and wraps from 65535 to 0 |
| Frame.EncodeDecodeHeader | libraries/WiLEDProto/WiLEDProto.cpp:90-103 | a buffer starting with the magic number is exactly the encoding of the header fields decoded from it |
| Frame.DecodeEncodeHeader | libraries/WiLEDProto/WiLEDProto.cpp:90-103 | decoding an encoded header gives back source, destination, both counters and the type |
| Frame.SetType | libraries/WiLEDProto/WiLEDProto.cpp:194-196 | the decoded type becomes the argument; every other byte is unchanged |
| Frame.SetDestination | libraries/WiLEDProto/WiLEDProto.cpp:200-204 | the decoded destination becomes the argument; every byte other than 3-4 is unchanged |
| Frame.SetPayloadByte | libraries/WiLEDProto/WiLEDProto.cpp:208-210 | byte `10 + offset` becomes the value; every other byte is unchanged |
| Frame.BeaconFrame | libraries/WiLEDProto/WiLEDProto.cpp:130-141 | the decoded destination is broadcast and the type is Beacon; bytes 10-13 read back big-endian as the uptime; magic, source, counter bytes and bytes after 13 are unchanged |
| Frame.StampCounters | libraries/WiLEDProto/WiLEDProto.cpp:147-155 | the decoded reset and message counters are the given ones; bytes 0-4 and from 9 on are unchanged |
| Frame.StampedBeacon | libraries/WiLEDProto/WiLEDProto.cpp:130-155 | a stamped Beacon keeps magic and source, and decodes to broadcast, Beacon, the two counters and the uptime |
| Frame.Wipe | libraries/WiLEDProto/WiLEDProto.cpp:160-163 | bytes 0-2 are kept and every later byte is zero |
| Storage.Persist | libraries/WiLEDProto/WiLEDProto.cpp:234-254 | a write succeeds and is logged exactly when the write callback is present; otherwise NOT_INIT and nothing is logged |
| PeerRegistry.Scan | libraries/WiLEDProto/WiLEDProto.cpp:259-261 | the result is the first in-use index at or after the start that holds the address; None means no such index exists |
| PeerRegistry.Find | libraries/WiLEDProto/WiLEDProto.cpp:257-261 | a slot is found exactly when the address is in use; it is the first such in-use slot |
| PeerRegistry.FindUnique | libraries/WiLEDProto/WiLEDProto.cpp:257-261 | when in-use addresses are distinct, the lookup returns the one in-use slot that holds the address |
| Validator.CheckAndUpdate | libraries/WiLEDProto/WiLEDProto.cpp:257-306 | known peer, newer reset counter: Success; the slot takes both counters; the address array is persisted and committed; known peer, older reset counter: INVALID_RST_CTR; nothing changes; same reset counter: Success with the new message counter only if it is strictly greater, otherwise INVALID_MSG_CTR with nothing changed; unknown peer with room: ADDED_ADDRESS; the address and message counter go into the next slot and the slot's old reset counter is kept; the address array and count are persisted and committed; unknown peer at capacity: AT_MAX_ADDRESSES; nothing changes; a commit happens exactly on the two committing paths |
| Validator.CheckAndUpdateKeepsRegistry | libraries/WiLEDProto/WiLEDProto.cpp:257-303 | the count grows by at most one; in-use slots keep their addresses and never move backwards in (reset, message) order; only the peer's slot or the next free slot changes; distinct addresses stay distinct |
| Engine.Create | libraries/WiLEDProto/WiLEDProto.cpp:27-48 | the address is kept when `0 < a < 65535` and is 0 otherwise; the outgoing frame is magic then the address big-endian, then zeros; both counters are 0; the registry is empty with every slot (0, 0, 0); the five received header fields, the payload length and the payload are 0 and no validation is recorded |
| Engine.Restored | libraries/WiLEDProto/WiLEDProto.cpp:55-57 | the restored registry holds the stored addresses, the stored reset counters and the stored count; the message counters, which are not stored, keep their values |
| Engine.InitStorage | libraries/WiLEDProto/WiLEDProto.cpp:51-61 | only with write and commit callbacks: the reset counter becomes the stored one (or the current one, without a read callback) plus one, modulo 2^16; it is written and committed; with a read callback the registry is restored; nothing else changes |
| Engine.Process | libraries/WiLEDProto/WiLEDProto.cpp:80-126 | bad magic gives INVALID_BUFFER exactly, zeroes the five header fields and touches nothing else; otherwise the header is recorded; NOT_THIS_DEST exactly when the destination is neither this node nor broadcast, with registry, log and validation unchanged; otherwise the validator's verdict, registry and writes are kept; UNKNOWN_TYPE (payload length 0) or SUCCESS (payload = bytes 10-13) by type alone, whatever the verdict |
| Engine.SendBeacon | libraries/WiLEDProto/WiLEDProto.cpp:130-141 | always SUCCESS; only the outgoing frame changes, and it decodes to broadcast, Beacon and the uptime; its bytes 0-2, 5-8 and from 14 on are as they were |
| Engine.CopyToBuffer | libraries/WiLEDProto/WiLEDProto.cpp:144-164 | the handed-out frame has the current reset counter and the incremented message counter stamped, with every other byte as it was; the message counter advances by one; the kept frame is wiped after byte 2 |
| EngineFacts.RecordedHeaderIsFrameHeader | libraries/WiLEDProto/WiLEDProto.cpp:90-103 | the recorded header fields encode back to exactly the first ten bytes of a well-formed frame |
| EngineFacts.SendOneBeacon | libraries/WiLEDProto/WiLEDProto.cpp:130-164 | one build-and-copy keeps the address and reset counter and advances the message counter by one, modulo 2^16 |
| EngineFacts.SendOneBeaconFrame | libraries/WiLEDProto/WiLEDProto.cpp:130-164 | the handed-out Beacon frame carries magic, own address, broadcast, Beacon, own reset counter, the advanced message counter and the uptime; the bytes after the payload are those of the outgoing frame before the send |
| EngineFacts.BeaconReachesPeer | tests/testcases/WiLEDProto_unittest.cpp:540-559 | a Beacon sent by one node and processed by another yields SUCCESS and records the sender's address, broadcast, Beacon, the sender's counters and the uptime |
| EngineFacts.SendBeacons | libraries/WiLEDProto/WiLEDProto.cpp:151-155 | after `k` Beacons the reset counter is unchanged and the message counter has advanced `k` times |
| EngineFacts.SendBeaconsStep | libraries/WiLEDProto/WiLEDProto.cpp:151-155 | each further Beacon advances the message counter by exactly one, wrapping at 2^16, however many were sent before |
| EngineFacts.AdvanceIsModular | libraries/WiLEDProto/WiLEDProto.cpp:153 | advancing a 16-bit counter `k` times adds `k` modulo 2^16 |
| EngineFacts.FreshBoot | libraries/WiLEDProto/WiLEDProto.cpp:51-61 | a node with zero counters booted on storage whose stored reset counter is 0 has reset counter 1 and message counter 0 |
| EngineFacts.FreshNodeCounters | tests/testcases/WiLEDProto_unittest.cpp:194-251 | after `k` Beacons such a node has reset counter 1 and message counter `k` modulo 2^16 |
| EngineFacts.FreshNodeFrames | tests/testcases/WiLEDProto_unittest.cpp:119-160 | frame number `k + 1` of such a node carries reset counter 1 and message counter `k + 1` modulo 2^16 |
| EngineFacts.ProcessKeepsRegistry | libraries/WiLEDProto/WiLEDProto.cpp:105-109 | processing any frame keeps the registry within capacity, keeps in-use addresses and distinctness, and never moves a peer's counters backwards |
| EngineFacts.FirstReplayIsAccepted | libraries/WiLEDProto/WiLEDProto.cpp:287-299 | the first frame from a new peer leaves the slot's old reset counter in place; when that is below the frame's, an exact replay is accepted (Success) and only the second replay is rejected; processing returns SUCCESS each time |

## Left out

- Debug output. The `Serial` printing in `initStorage` (WiLEDProto.cpp:63-74) is I/O with no logic.
- Byte-level persistence. `__restoreFromStorage_uint16t` and `__addToStorage_uint16t` (WiLEDProto.cpp:213-254) copy `uint16_t` arrays byte by byte through foreign callbacks, in host byte order.
  - A restore is a decoded `Image` parameter, applied only when the read callback is present.
  - A write is a `StorageOp` entry in the engine's log, made only when the write callback is present.
  - Storage offsets and the callbacks' own behaviour are not modelled.
- Engine.InitStorage: the restored count is assumed not to exceed the capacity (`ImageFits`). The source does not check this.
- Engine.Process and Validator.CheckAndUpdate require the commit callback on every path that calls it (`CommitSafe`, `Commits`). The source calls it without a null check (WiLEDProto.cpp:267, 298).
- The header file is not part of this model.
  - The constants `MAXIMUM_MESSAGE_LENGTH` and `MAXIMUM_STORED_ADDRESSES` are fields of a `Config`. The model requires a length from 14 to 255, because the wipe loop's `uint8_t` index must reach it, and a capacity below 65536.
  - Members not set by the constructor are taken as zero, as the empty-state test expects. This includes the outgoing bytes after the address.
  - The validation field is `None` before the first validation.
  - The type code `WiLP_Beacon` is taken as `0x01`, the value the unit tests put in byte 9 of a Beacon (tests/testcases/WiLEDProto_unittest.cpp:457).
  - The message counter is taken as 16 bits wide. Bytes 7-8 carry its low 16 bits for any width of 16 or more.
- Frame integrity codes (CRC). `copyToBuffer` computes none, although the test vectors carry two extra bytes.
- Message-counter overflow. The tests expect the counter to restart at 1 with the reset counter bumped after 65535 frames. The code has only a TODO at WiLEDProto.cpp:152 and simply wraps to 0, and the model follows the code (`EngineFacts.FreshNodeCounters`).
- Replay detection through `processMessage`. A test expects INVALID_MSG_CTR from the second processing of the same frame. The code returns SUCCESS for any Beacon (WiLEDProto.cpp:125). A new peer's slot keeps its old reset counter, so the validator's verdict on replays depends on it. When that value is below the frame's reset counter, as on zeroed storage, the first replay validates as Success and only the second as INVALID_MSG_CTR. When it equals the frame's, the first replay already gets INVALID_MSG_CTR; when it is larger, every later frame of that epoch gets INVALID_RST_CTR. The model follows the code (`EngineFacts.FirstReplayIsAccepted`).
- Message types other than Beacon. Set Individual and its variants, the receive callbacks and `handleLastMessage` appear only in the tests. The code knows only Beacon.
- `WiLP_RETURN_OTHER_ERROR` (WiLEDProto.cpp:305) cannot be reached, and no model path produces it.
- Engine.CopyToBuffer: the caller's output buffer is modelled as the returned frame. Raw `memcpy` into caller memory is not modelled.
- The received payload holder is modelled as 4 bytes, the size of the only known payload.
