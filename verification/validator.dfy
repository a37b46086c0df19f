/** The replay validator (`__checkAndUpdateMessageCounter`): decides, for
    the claimed reset and message counters of a frame from a peer, whether
    the frame is fresh, and updates the peer registry accordingly. */
module Validator {
  import opened Wire
  import opened Codes
  import opened Storage
  import opened PeerRegistry

  /** The validator's verdict, the registry after it, and the storage
      operations it issued. */
  datatype Verdict = Verdict(status: Status, registry: Registry, writes: seq<StorageOp>)

  /** Lexicographic order on (reset counter, message counter). */
  predicate CountersLe(s: Slot, t: Slot) {
    s.resetCounter < t.resetCounter
    || (s.resetCounter == t.resetCounter && s.messageCounter <= t.messageCounter)
  }

  /** Whether the validator reaches a call of the commit callback: a known
      peer with a newer reset counter, or a new peer with room for it. */
  predicate Commits(reg: Registry, a: U16, rst: U16)
    requires reg.Bounded()
  {
    match Find(reg, a)
    case Some(i) => reg.slots[i].resetCounter < rst
    case None => reg.count < reg.Capacity()
  }

  /** The validator's decision table. For a known peer (first matching
      in-use slot): a newer reset counter starts a new epoch and takes the
      message counter as its baseline; an older one is rejected; within the
      same epoch only a strictly newer message counter is accepted. An
      unknown peer is appended when there is room, with its address and
      message counter; the slot's reset counter is left as it was. The
      commit callback is called without a null check, so the caller must
      have supplied it whenever a commit is reached. */
  function CheckAndUpdate(reg: Registry, hooks: Hooks, a: U16, rst: U16, msg: U16): (v: Verdict)
    requires reg.Bounded()
    requires Commits(reg, a, rst) ==> hooks.canCommit
    ensures v.registry.Capacity() == reg.Capacity() && v.registry.Bounded()
    // known peer
    ensures reg.Known(a) ==> v.registry.count == reg.count
    ensures reg.Known(a) ==>
      var i := Find(reg, a).value;
      var s := reg.slots[i];
      && (s.resetCounter < rst ==>
            v.status == Success
            && v.registry.slots == reg.slots[i := Slot(a, rst, msg)]
            && v.writes == Persist(hooks, AddressTable(Addresses(reg))).1 + [Commit])
      && (s.resetCounter > rst ==>
            v.status == InvalidRstCtr && v.registry == reg && v.writes == [])
      && (s.resetCounter == rst && s.messageCounter < msg ==>
            v.status == Success
            && v.registry.slots == reg.slots[i := Slot(a, rst, msg)]
            && v.writes == [])
      && (s.resetCounter == rst && s.messageCounter >= msg ==>
            v.status == InvalidMsgCtr && v.registry == reg && v.writes == [])
    // unknown peer
    ensures !reg.Known(a) && reg.count < reg.Capacity() ==>
      && v.status == AddedAddress
      && v.registry.count == reg.count + 1
      && v.registry.slots
         == reg.slots[reg.count := Slot(a, reg.slots[reg.count].resetCounter, msg)]
      && v.writes == Persist(hooks, AddressTable(Addresses(v.registry))).1
                     + Persist(hooks, AddressCount(v.registry.count)).1 + [Commit]
    ensures !reg.Known(a) && reg.count == reg.Capacity() ==>
      v.status == AtMaxAddresses && v.registry == reg && v.writes == []
    // storage is committed exactly on the paths that change durable state
    ensures Commit in v.writes <==> Commits(reg, a, rst)
  {
    match Find(reg, a)
    case Some(i) =>
      var s := reg.slots[i];
      if s.resetCounter < rst then
        var reg' := reg.(slots := reg.slots[i := s.(resetCounter := rst, messageCounter := msg)]);
        // the address array is persisted here, not the reset-counter array
        assert Addresses(reg') == Addresses(reg);
        var (_, w) := Persist(hooks, AddressTable(Addresses(reg')));
        Verdict(Success, reg', w + [Commit])
      else if s.resetCounter != rst then
        Verdict(InvalidRstCtr, reg, [])
      else if s.messageCounter < msg then
        Verdict(Success, reg.(slots := reg.slots[i := s.(messageCounter := msg)]), [])
      else
        Verdict(InvalidMsgCtr, reg, [])
    case None =>
      if reg.count < reg.Capacity() then
        var s := reg.slots[reg.count];
        var reg' := Registry(reg.slots[reg.count := s.(address := a, messageCounter := msg)], reg.count + 1);
        var (_, w1) := Persist(hooks, AddressTable(Addresses(reg')));
        var (_, w2) := Persist(hooks, AddressCount(reg'.count));
        Verdict(AddedAddress, reg', w1 + w2 + [Commit])
      else
        Verdict(AtMaxAddresses, reg, [])
  }

  /** What every validation keeps: the count grows by at most one; in-use
      slots keep their address and never move backwards in (reset, message)
      order; only the first slot holding the peer's address, or the new
      slot, changes; distinct addresses stay distinct. */
  lemma CheckAndUpdateKeepsRegistry(reg: Registry, hooks: Hooks, a: U16, rst: U16, msg: U16)
    requires reg.Bounded()
    requires Commits(reg, a, rst) ==> hooks.canCommit
    ensures var v := CheckAndUpdate(reg, hooks, a, rst, msg);
      && reg.count <= v.registry.count <= reg.count + 1
      && (forall j :: 0 <= j < reg.count ==>
            v.registry.slots[j].address == reg.slots[j].address
            && CountersLe(reg.slots[j], v.registry.slots[j]))
      && (forall j :: 0 <= j < reg.Capacity() && reg.slots[j] != v.registry.slots[j] ==>
            reg.slots[j].address == a || j == reg.count)
      && (reg.Distinct() ==> v.registry.Distinct())
  {
    var v := CheckAndUpdate(reg, hooks, a, rst, msg);
    if !reg.Known(a) && reg.count < reg.Capacity() && reg.Distinct() {
      forall i, j | 0 <= i < j < v.registry.count
        ensures v.registry.slots[i].address != v.registry.slots[j].address
      {
        if j == reg.count {
          assert !reg.Known(a);
          assert reg.slots[i].address != a;
        }
      }
    }
  }

  /** A known peer's stored counters after a successful validation are the
      claimed ones; a rejection leaves them as they were. */
  lemma AcceptedCountersAreStored(reg: Registry, hooks: Hooks, a: U16, rst: U16, msg: U16)
    requires reg.Bounded() && reg.Known(a)
    requires Commits(reg, a, rst) ==> hooks.canCommit
    ensures var v := CheckAndUpdate(reg, hooks, a, rst, msg);
      var i := Find(reg, a).value;
      && (v.status == Success <==> CountersLe(reg.slots[i], Slot(a, rst, msg)) && reg.slots[i] != Slot(a, rst, msg))
      && (v.status == Success ==> v.registry.slots[i] == Slot(a, rst, msg))
      && (v.status != Success ==> v.registry == reg)
  {
  }
}
