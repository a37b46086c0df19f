/** Properties that relate several engine operations: the send path seen
    from a receiving node, the counters carried by a run of frames, and the
    registry invariants kept by the receive path. */
module EngineFacts {
  import opened Wire
  import opened Codes
  import opened Frame
  import opened Storage
  import opened PeerRegistry
  import opened Validator
  import opened Engine

  /** With a valid magic byte, the recorded header fields encode back to
      exactly the first ten bytes of the frame. */
  lemma RecordedHeaderIsFrameHeader(e: ValidEngine, buf: seq<Byte>)
    requires |buf| >= MinFrameLength && CommitSafe(e, buf)
    requires buf[0] == Magic
    ensures EncodeHeader(Recorded(Process(e, buf).engine.last)) == buf[..HeaderLength]
  {
    EncodeDecodeHeader(buf);
  }

  /** One Beacon built and copied out: the engine keeps its shape, its
      configuration and its reset counter, and advances its message counter. */
  function SendOneBeacon(e: ValidEngine, uptime: U32): (c: Copied)
    ensures Valid(c.engine)
    ensures c.engine.config == e.config && c.engine.address == e.address
    ensures c.engine.selfResetCounter == e.selfResetCounter
    ensures c.engine.selfMessageCounter == Inc16(e.selfMessageCounter)
    ensures |c.frame| == e.config.maxMessageLength
  {
    CopyToBuffer(SendBeacon(e, uptime).engine)
  }

  /** The frame of one Beacon carries the magic number, this node's address,
      the broadcast destination, the Beacon type, the node's reset counter,
      its advanced message counter and the uptime; the bytes after the
      payload are those of the outgoing frame before the send. */
  lemma SendOneBeaconFrame(e: ValidEngine, uptime: U32)
    ensures var c := SendOneBeacon(e, uptime);
      && c.frame[0] == Magic
      && DecodeHeader(c.frame).source == e.address
      && DecodeHeader(c.frame).destination == Broadcast
      && DecodeHeader(c.frame).resetCounter == e.selfResetCounter
      && DecodeHeader(c.frame).messageCounter == Inc16(e.selfMessageCounter)
      && DecodeHeader(c.frame).msgType == BeaconType
      && Be32At(c.frame, HeaderLength) == uptime
      && (forall i :: MinFrameLength <= i < |c.frame| ==> c.frame[i] == e.outgoing[i])
  {
    var c := SendOneBeacon(e, uptime);
    assert c.frame == StampCounters(BeaconFrame(e.outgoing, uptime), e.selfResetCounter, Inc16(e.selfMessageCounter));
    StampedBeacon(e.outgoing, uptime, e.selfResetCounter, Inc16(e.selfMessageCounter));
  }

  /** A Beacon built and copied out by one node, processed by another:
      accepted as a broadcast Beacon from the sender, carrying the sender's
      counters and the uptime. The receiver has its commit callback, which
      the validator may call. */
  lemma BeaconReachesPeer(sender: ValidEngine, receiver: ValidEngine, uptime: U32)
    requires receiver.hooks.canCommit
    ensures
      var c := SendOneBeacon(sender, uptime);
      var p := Process(receiver, c.frame);
      && p.status == Success
      && LastReceivedSource(p.engine) == sender.address
      && LastReceivedDestination(p.engine) == Broadcast
      && LastReceivedType(p.engine) == BeaconType
      && LastReceivedResetCounter(p.engine) == sender.selfResetCounter
      && LastReceivedMessageCounter(p.engine) == Inc16(sender.selfMessageCounter)
      && Be32(p.engine.last.payload) == uptime
  {
    SendOneBeaconFrame(sender, uptime);
  }

  /** The engine after `k` Beacons sent one after another (build, then
      copy out): same reset counter, message counter advanced `k` times. */
  function SendBeacons(e: ValidEngine, uptime: U32, k: nat): (r: Engine)
    ensures Valid(r)
    ensures r.config == e.config && r.address == e.address
    ensures r.selfResetCounter == e.selfResetCounter
    ensures r.selfMessageCounter == Advance(e.selfMessageCounter, k)
    decreases k
  {
    if k == 0 then
      e
    else
      SendBeacons(SendOneBeacon(e, uptime).engine, uptime, k - 1)
  }

  /** Each further Beacon advances the message counter by exactly one
      (wrapping at 2^16), however many were sent before. */
  lemma {:induction false} SendBeaconsStep(e: ValidEngine, uptime: U32, k: nat)
    ensures SendBeacons(e, uptime, k + 1).selfMessageCounter
         == Inc16(SendBeacons(e, uptime, k).selfMessageCounter)
  {
    AdvanceStep(e.selfMessageCounter, k);
  }

  /** A 16-bit counter advanced `k` times. */
  function Advance(m: U16, k: nat): U16
    decreases k
  {
    if k == 0 then m else Advance(Inc16(m), k - 1)
  }

  /** Advancing `k` times and then once more is advancing `k + 1` times. */
  lemma {:induction false} AdvanceStep(m: U16, k: nat)
    ensures Inc16(Advance(m, k)) == Advance(m, k + 1)
    decreases k
  {
    if k > 0 {
      AdvanceStep(Inc16(m), k - 1);
    }
  }

  /** Advancing `k` times is adding `k` modulo 2^16. */
  lemma {:induction false} AdvanceIsModular(m: U16, k: nat)
    ensures Advance(m, k) == (m + k) % 0x1_0000
    decreases k
  {
    if k > 0 {
      AdvanceIsModular(Inc16(m), k - 1);
      if m == 0xFFFF {
        assert m + k == (k - 1) + 0x1_0000;
      }
    }
  }

  /** A storage image that fits the configuration and whose stored reset
      counter is 0, as on storage that was never written. */
  predicate BlankCounterImage(config: Config, image: Image) {
    && |image.addresses| == config.maxStoredAddresses
    && |image.resetCounters| == config.maxStoredAddresses
    && image.count <= config.maxStoredAddresses
    && image.selfResetCounter == 0
  }

  /** A node whose counters are still zero, as the constructor leaves
      them, booted on such storage: reset counter 1 and message counter 0,
      whether or not the read callback is present. */
  function FreshBoot(e: ValidEngine, image: Image): (r: ValidEngine)
    requires e.selfResetCounter == 0 && e.selfMessageCounter == 0
    requires StorageConfigured(e.hooks) && BlankCounterImage(e.config, image)
    ensures r.selfResetCounter == 1 && r.selfMessageCounter == 0
  {
    InitStorage(e, image)
  }

  /** After `k` Beacons a freshly booted node still has reset counter 1
      and message counter `k` modulo 2^16, so its next frame carries
      `k + 1` modulo 2^16 (the counter simply wraps to 0). */
  lemma FreshNodeCounters(e: ValidEngine, image: Image, uptime: U32, k: nat)
    requires e.selfResetCounter == 0 && e.selfMessageCounter == 0
    requires StorageConfigured(e.hooks) && BlankCounterImage(e.config, image)
    ensures SendBeacons(FreshBoot(e, image), uptime, k).selfResetCounter == 1
    ensures SendBeacons(FreshBoot(e, image), uptime, k).selfMessageCounter == k % 0x1_0000
  {
    AdvanceIsModular(0, k);
    assert Advance(0, k) == k % 0x1_0000;
  }

  /** The frames of a freshly booted node: frame number `k + 1` carries
      reset counter 1 and message counter `k + 1` modulo 2^16. */
  lemma FreshNodeFrames(e: ValidEngine, image: Image, uptime: U32, k: nat)
    requires e.selfResetCounter == 0 && e.selfMessageCounter == 0
    requires StorageConfigured(e.hooks) && BlankCounterImage(e.config, image)
    ensures var f := SendOneBeacon(SendBeacons(FreshBoot(e, image), uptime, k), uptime).frame;
      DecodeHeader(f).resetCounter == 1 && DecodeHeader(f).messageCounter == (k + 1) % 0x1_0000
  {
    var r := SendBeacons(FreshBoot(e, image), uptime, k);
    FreshNodeCounters(e, image, uptime, k);
    SendOneBeaconFrame(r, uptime);
    IncModular(k);
  }

  /** Incrementing a counter that holds `k` modulo 2^16 gives `k + 1`
      modulo 2^16. */
  lemma IncModular(k: nat)
    ensures Inc16(k % 0x1_0000) == (k + 1) % 0x1_0000
  {
  }

  /** Processing any frame keeps the registry within capacity, keeps the
      addresses of in-use slots, never moves a slot backwards in (reset,
      message) order, and keeps addresses distinct. */
  lemma ProcessKeepsRegistry(e: ValidEngine, buf: seq<Byte>)
    requires |buf| >= MinFrameLength && CommitSafe(e, buf)
    ensures
      var r := Process(e, buf).engine.registry;
      && r.Bounded() && r.Capacity() == e.registry.Capacity()
      && e.registry.count <= r.count <= e.registry.count + 1
      && (forall j :: 0 <= j < e.registry.count ==>
            r.slots[j].address == e.registry.slots[j].address
            && CountersLe(e.registry.slots[j], r.slots[j]))
      && (e.registry.Distinct() ==> r.Distinct())
  {
    if buf[0] == Magic && ForThisNode(e, DecodeHeader(buf).destination) {
      var h := DecodeHeader(buf);
      CheckAndUpdateKeepsRegistry(e.registry, e.hooks, h.source, h.resetCounter, h.messageCounter);
    }
  }

  /** The replay behaviour of the validator as written: the first frame
      from a new peer is recorded without writing the slot's reset counter,
      so when that stale value is below the frame's reset counter an exact
      replay is taken for a reboot and accepted; only the second replay is
      rejected. The receive path reports Success throughout. */
  lemma FirstReplayIsAccepted(e: ValidEngine, buf: seq<Byte>)
    requires |buf| >= MinFrameLength && e.hooks.canCommit
    requires buf[0] == Magic && buf[TypeOffset] == BeaconType
    requires ForThisNode(e, DecodeHeader(buf).destination)
    requires !e.registry.Known(DecodeHeader(buf).source)
    requires e.registry.count < e.registry.Capacity()
    requires e.registry.slots[e.registry.count].resetCounter < DecodeHeader(buf).resetCounter
    ensures
      var p1 := Process(e, buf);
      var p2 := Process(p1.engine, buf);
      var p3 := Process(p2.engine, buf);
      && p1.status == Success && p1.engine.last.validation == Some(AddedAddress)
      && p2.status == Success && p2.engine.last.validation == Some(Success)
      && p3.status == Success && p3.engine.last.validation == Some(InvalidMsgCtr)
  {
    var h := DecodeHeader(buf);
    var n := e.registry.count;
    var p1 := Process(e, buf);
    var r1 := p1.engine.registry;
    assert r1.slots[n] == Slot(h.source, e.registry.slots[n].resetCounter, h.messageCounter);
    assert Find(r1, h.source) == Some(n) by {
      assert r1.slots[n].address == h.source;
      assert r1.Known(h.source);
    }
    var p2 := Process(p1.engine, buf);
    var r2 := p2.engine.registry;
    assert r2.slots[n] == Slot(h.source, h.resetCounter, h.messageCounter);
    assert Find(r2, h.source) == Some(n) by {
      assert r2.slots[n].address == h.source;
      assert r2.Known(h.source);
    }
  }
}
