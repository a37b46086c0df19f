/** The protocol engine (`WiLEDProto`): this node's address and counters,
    the peer registry, the outgoing frame being built, and the fields of
    the most recently received frame. Every operation is a pure function
    from the engine before to the engine after. */
module Engine {
  import opened Wire
  import opened Codes
  import opened Frame
  import opened Storage
  import opened PeerRegistry
  import opened Validator

  /** The build-time constants `MAXIMUM_MESSAGE_LENGTH` and
      `MAXIMUM_STORED_ADDRESSES`. */
  datatype Config = Config(maxMessageLength: nat, maxStoredAddresses: nat)

  /** The frame must hold a Beacon, and the wipe loop's `uint8_t` index must
      be able to reach the length; the address count is a `uint16_t`. */
  predicate ConfigOk(c: Config) {
    MinFrameLength <= c.maxMessageLength < 0x100 && c.maxStoredAddresses < 0x1_0000
  }

  /** The `__last_received_*` fields. `validation` is None until the
      validator has run once; `payload` is the Beacon-sized payload holder. */
  datatype Received = Received(
    source: U16,
    destination: U16,
    msgType: Byte,
    resetCounter: U16,
    messageCounter: U16,
    validation: Option<Status>,
    payloadLength: nat,
    payload: seq<Byte>)

  /** The recorded header fields. */
  function Recorded(last: Received): Header {
    Header(last.source, last.destination, last.resetCounter, last.messageCounter, last.msgType)
  }

  datatype Engine = Engine(
    config: Config,
    hooks: Hooks,
    address: U16,
    selfResetCounter: U16,
    selfMessageCounter: U16,
    registry: Registry,
    outgoing: seq<Byte>,
    last: Received,
    log: seq<StorageOp>)


  /** The shape every engine keeps: the outgoing frame has the configured
      length and starts with the magic number and this node's address, the
      registry has the configured capacity and never overflows it. */
  predicate Valid(e: Engine) {
    && ConfigOk(e.config)
    && |e.outgoing| == e.config.maxMessageLength
    && e.outgoing[0] == Magic
    && Be16(e.outgoing[1], e.outgoing[2]) == e.address
    && e.registry.Bounded()
    && e.registry.Capacity() == e.config.maxStoredAddresses
    && |e.last.payload| == BeaconPayloadLength
  }

  /** An engine in the shape every operation keeps. */
  type ValidEngine = e: Engine | Valid(e)
    witness Engine(
      Config(MinFrameLength, 0), Hooks(false, false, false), 0, 0, 0,
      Registry([], 0), [Magic] + seq(MinFrameLength - 1, _ => 0),
      Received(0, 0, 0, 0, 0, None, 0, [0, 0, 0, 0]), [])

  /** Result of an operation that returns a status code. */
  datatype Step = Step(status: Status, engine: Engine)

  /** Result of `copyToBuffer`: the frame handed to the caller. */
  datatype Copied = Copied(frame: seq<Byte>, engine: Engine)

  /** Addresses a node may take; 0 and broadcast are reserved. */
  predicate AssignableAddress(a: U16) {
    a != 0 && a != Broadcast
  }

  /** The constructor. An assignable address is kept, a reserved one becomes
      0. The outgoing frame starts with the magic number and the stored
      address, big-endian. All other members start at zero. */
  function Create(config: Config, hooks: Hooks, inAddress: U16): (e: Engine)
    requires ConfigOk(config)
    ensures Valid(e)
    ensures AssignableAddress(inAddress) ==> e.address == inAddress
    ensures !AssignableAddress(inAddress) ==> e.address == 0
    ensures e.outgoing[..3] == [Magic] + ToBe16(e.address)
    ensures forall i :: 3 <= i < |e.outgoing| ==> e.outgoing[i] == 0
    ensures e.selfResetCounter == 0 && e.selfMessageCounter == 0
    ensures e.registry.count == 0
    ensures forall i :: 0 <= i < |e.registry.slots| ==> e.registry.slots[i] == Slot(0, 0, 0)
    ensures e.last == Received(0, 0, 0, 0, 0, None, 0, [0, 0, 0, 0])
    ensures e.log == [] && e.hooks == hooks && e.config == config
  {
    var address := if inAddress > 0 && inAddress < 65535 then inAddress else 0;
    var zeros := seq(config.maxMessageLength - 3, _ => 0);
    Engine(
      config, hooks, address, 0, 0,
      Empty(config.maxStoredAddresses),
      [Magic, Hi(address), Lo(address)] + zeros,
      Received(0, 0, 0, 0, 0, None, 0, [0, 0, 0, 0]),
      [])
  }

  /** The restore gate of `initStorage`: both write and commit callbacks. */
  predicate StorageConfigured(h: Hooks) {
    h.canCommit && h.canWrite
  }

  /** A storage image that fits this engine's registry; the restored count
      is not checked against the capacity, so that is assumed here. */
  predicate ImageFits(e: Engine, image: Image) {
    && |image.addresses| == e.config.maxStoredAddresses
    && |image.resetCounters| == e.config.maxStoredAddresses
    && image.count <= e.config.maxStoredAddresses
  }

  /** The registry after restoring address and reset-counter arrays and
      the count; message counters are volatile and keep their values. */
  function Restored(reg: Registry, image: Image): (r: Registry)
    requires |image.addresses| == |image.resetCounters| == |reg.slots|
    requires image.count <= |reg.slots| < 0x1_0000
    ensures r.Bounded() && r.Capacity() == reg.Capacity() && r.count == image.count
    ensures forall i :: 0 <= i < |r.slots| ==>
      r.slots[i] == Slot(image.addresses[i], image.resetCounters[i], reg.slots[i].messageCounter)
  {
    Registry(
      seq(|reg.slots|, i requires 0 <= i < |reg.slots| =>
        Slot(image.addresses[i], image.resetCounters[i], reg.slots[i].messageCounter)),
      image.count)
  }

  /** `initStorage`. With write and commit callbacks present it restores
      the registry and this node's reset counter (when the read callback is
      present too; otherwise the restores change nothing), bumps the reset
      counter by one modulo 2^16, writes it back and commits. Without them
      nothing happens. */
  function InitStorage(e: ValidEngine, image: Image): (r: Engine)
    requires ImageFits(e, image)
    ensures Valid(r)
    ensures !StorageConfigured(e.hooks) ==> r == e
    ensures StorageConfigured(e.hooks) ==>
      var before := if e.hooks.canRead then image.selfResetCounter else e.selfResetCounter;
      && r.selfResetCounter == Inc16(before)
      && r.log == e.log + [SelfResetCounter(r.selfResetCounter), Commit]
    ensures StorageConfigured(e.hooks) && e.hooks.canRead ==>
      && r.registry.count == image.count
      && Addresses(r.registry) == image.addresses
      && (forall i :: 0 <= i < |r.registry.slots| ==>
            r.registry.slots[i].resetCounter == image.resetCounters[i]
            && r.registry.slots[i].messageCounter == e.registry.slots[i].messageCounter)
    ensures StorageConfigured(e.hooks) && !e.hooks.canRead ==> r.registry == e.registry
    ensures r.(selfResetCounter := e.selfResetCounter, registry := e.registry, log := e.log) == e
  {
    if StorageConfigured(e.hooks) then
      var restored := if e.hooks.canRead then Restored(e.registry, image) else e.registry;
      var before := if e.hooks.canRead then image.selfResetCounter else e.selfResetCounter;
      var bumped := Inc16(before);
      var (_, w) := Persist(e.hooks, SelfResetCounter(bumped));
      e.(registry := restored, selfResetCounter := bumped, log := e.log + w + [Commit])
    else
      e
  }

  /** Whether a destination is accepted by this node. */
  predicate ForThisNode(e: Engine, destination: U16) {
    destination == e.address || destination == Broadcast
  }

  /** The commit callback is present whenever processing `buf` reaches it. */
  predicate CommitSafe(e: ValidEngine, buf: seq<Byte>)
    requires |buf| >= MinFrameLength
  {
    var h := DecodeHeader(buf);
    buf[0] == Magic && ForThisNode(e, h.destination)
      && Commits(e.registry, h.source, h.resetCounter)
    ==> e.hooks.canCommit
  }

  /** `processMessage`. A bad magic byte zeroes the last-received header
      fields and stops. Otherwise the header is recorded, then frames for
      other nodes stop with NotThisDest, then the validator runs and its
      verdict is recorded, then an unknown type stops with UnknownType and
      payload length 0, and a Beacon has its four payload bytes copied and
      yields Success whatever the validator decided. */
  function Process(e: ValidEngine, buf: seq<Byte>): (r: Step)
    requires |buf| >= MinFrameLength && CommitSafe(e, buf)
    ensures Valid(r.engine)
    // fields the receive path never touches
    ensures r.engine.(registry := e.registry, last := e.last, log := e.log) == e
    // bad magic
    ensures r.status == InvalidBuffer <==> buf[0] != Magic
    ensures buf[0] != Magic ==>
      && r.engine.last.source == 0 && r.engine.last.destination == 0
      && r.engine.last.msgType == 0
      && r.engine.last.resetCounter == 0 && r.engine.last.messageCounter == 0
      && r.engine.last.validation == e.last.validation
      && r.engine.last.payloadLength == e.last.payloadLength
      && r.engine.last.payload == e.last.payload
      && r.engine.registry == e.registry && r.engine.log == e.log
    // a well-formed header is recorded whatever happens next
    ensures buf[0] == Magic ==> Recorded(r.engine.last) == DecodeHeader(buf)
    // destination filter
    ensures r.status == NotThisDest <==>
      buf[0] == Magic && !ForThisNode(e, DecodeHeader(buf).destination)
    ensures r.status == NotThisDest ==>
      && r.engine.registry == e.registry && r.engine.log == e.log
      && r.engine.last.validation == e.last.validation
      && r.engine.last.payloadLength == e.last.payloadLength
      && r.engine.last.payload == e.last.payload
    // the validator runs, and its verdict is kept, before the type is looked at
    ensures r.status != InvalidBuffer && r.status != NotThisDest ==>
      var h := DecodeHeader(buf);
      var v := CheckAndUpdate(e.registry, e.hooks, h.source, h.resetCounter, h.messageCounter);
      && r.engine.last.validation == Some(v.status)
      && r.engine.registry == v.registry
      && r.engine.log == e.log + v.writes
    // type dispatch
    ensures r.status == UnknownType <==>
      buf[0] == Magic && ForThisNode(e, DecodeHeader(buf).destination) && buf[TypeOffset] != BeaconType
    ensures r.status == UnknownType ==>
      r.engine.last.payloadLength == 0 && r.engine.last.payload == e.last.payload
    ensures r.status == Success <==>
      buf[0] == Magic && ForThisNode(e, DecodeHeader(buf).destination) && buf[TypeOffset] == BeaconType
    ensures r.status == Success ==>
      && r.engine.last.payloadLength == BeaconPayloadLength
      && r.engine.last.payload == buf[HeaderLength..MinFrameLength]
  {
    if buf[0] != Magic then
      Step(InvalidBuffer, e.(last := e.last.(
        destination := 0, source := 0, msgType := 0, resetCounter := 0, messageCounter := 0)))
    else
      var h := DecodeHeader(buf);
      var recorded := e.last.(
        destination := h.destination, source := h.source, msgType := h.msgType,
        resetCounter := h.resetCounter, messageCounter := h.messageCounter);
      if !ForThisNode(e, h.destination) then
        Step(NotThisDest, e.(last := recorded))
      else
        var v := CheckAndUpdate(e.registry, e.hooks, h.source, h.resetCounter, h.messageCounter);
        var validated := recorded.(validation := Some(v.status));
        var e' := e.(registry := v.registry, log := e.log + v.writes);
        var n := PayloadLength(h.msgType);
        if n == 0 then
          Step(UnknownType, e'.(last := validated.(payloadLength := 0)))
        else
          var payload := buf[HeaderLength..HeaderLength + n] + validated.payload[n..];
          Step(Success, e'.(last := validated.(payloadLength := n, payload := payload)))
  }

  /** `sendMessageBeacon`: a broadcast Beacon whose payload is the uptime,
      big-endian, written into the outgoing frame; always Success. Only
      bytes 3-4, 9 and 10-13 of the outgoing frame change. */
  function SendBeacon(e: ValidEngine, uptime: U32): (r: Step)
    ensures r.status == Success && Valid(r.engine)
    ensures r.engine.(outgoing := e.outgoing) == e
    ensures DecodeHeader(r.engine.outgoing).destination == Broadcast
    ensures DecodeHeader(r.engine.outgoing).msgType == BeaconType
    ensures Be32At(r.engine.outgoing, HeaderLength) == uptime
    ensures forall i :: 0 <= i < |e.outgoing| && (i < DestinationOffset || ResetCounterOffset <= i < TypeOffset || MinFrameLength <= i) ==>
      r.engine.outgoing[i] == e.outgoing[i]
  {
    Step(Success, e.(outgoing := BeaconFrame(e.outgoing, uptime)))
  }

  /** `copyToBuffer`: stamps the current reset counter into bytes 5-6,
      advances the message counter (wrapping at 2^16) and stamps it into
      bytes 7-8, hands out the whole frame, then wipes everything after the
      magic number and source address. The reset counter is not changed. */
  function CopyToBuffer(e: ValidEngine): (c: Copied)
    ensures Valid(c.engine)
    ensures c.engine.(outgoing := e.outgoing, selfMessageCounter := e.selfMessageCounter) == e
    ensures c.engine.selfMessageCounter == Inc16(e.selfMessageCounter)
    ensures |c.frame| == e.config.maxMessageLength
    ensures DecodeHeader(c.frame).resetCounter == e.selfResetCounter
    ensures DecodeHeader(c.frame).messageCounter == c.engine.selfMessageCounter
    ensures forall i :: 0 <= i < |c.frame| && (i < ResetCounterOffset || TypeOffset <= i) ==>
      c.frame[i] == e.outgoing[i]
    ensures c.engine.outgoing[..3] == e.outgoing[..3]
    ensures forall i :: 3 <= i < |c.engine.outgoing| ==> c.engine.outgoing[i] == 0
  {
    var m := Inc16(e.selfMessageCounter);
    var frame := StampCounters(e.outgoing, e.selfResetCounter, m);
    var wiped := Wipe(frame);
    assert wiped[1] == frame[1] == e.outgoing[1] && wiped[2] == frame[2] == e.outgoing[2];
    Copied(frame, e.(outgoing := wiped, selfMessageCounter := m))
  }

  // The `getLastReceived*` accessors.

  function LastReceivedType(e: Engine): Byte { e.last.msgType }
  function LastReceivedSource(e: Engine): U16 { e.last.source }
  function LastReceivedDestination(e: Engine): U16 { e.last.destination }
  function LastReceivedResetCounter(e: Engine): U16 { e.last.resetCounter }
  function LastReceivedMessageCounter(e: Engine): U16 { e.last.messageCounter }
  function LastReceivedMessageCounterValidation(e: Engine): Option<Status> { e.last.validation }
}
