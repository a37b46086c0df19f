/** The peer registry: the three parallel arrays `__address_array`,
    `__reset_counter_array` and `__message_counter_array`, seen as one
    sequence of slots whose length is the capacity, plus
    `__count_addresses`, the number of slots in use. Slots at and beyond
    the count still hold values (zeros, or what a restore read), which
    matters because adding a peer does not overwrite its reset counter. */
module PeerRegistry {
  import opened Wire
  import opened Codes

  datatype Slot = Slot(address: U16, resetCounter: U16, messageCounter: U16)

  datatype Registry = Registry(slots: seq<Slot>, count: nat) {

    /** `MAXIMUM_STORED_ADDRESSES` */
    function Capacity(): nat {
      |slots|
    }

    /** The count never exceeds the capacity, and fits `uint16_t`. */
    predicate Bounded() {
      count <= |slots| < 0x1_0000
    }

    /** The in-use addresses are pairwise distinct. */
    predicate Distinct()
      requires Bounded()
    {
      forall i, j :: 0 <= i < j < count ==> slots[i].address != slots[j].address
    }

    /** Whether `a` is among the in-use addresses. */
    predicate Known(a: U16)
      requires Bounded()
    {
      exists i :: 0 <= i < count && slots[i].address == a
    }
  }

  /** A registry of the given capacity with every slot zero and none in use. */
  function Empty(capacity: nat): (r: Registry)
    requires capacity < 0x1_0000
    ensures r.Bounded() && r.Capacity() == capacity && r.count == 0
    ensures forall i :: 0 <= i < capacity ==> r.slots[i] == Slot(0, 0, 0)
  {
    Registry(seq(capacity, _ => Slot(0, 0, 0)), 0)
  }

  /** The whole address array, in use or not, as the storage write sees it. */
  function Addresses(reg: Registry): (r: seq<U16>)
    ensures |r| == |reg.slots|
    ensures forall i :: 0 <= i < |r| ==> r[i] == reg.slots[i].address
  {
    seq(|reg.slots|, i requires 0 <= i < |reg.slots| => reg.slots[i].address)
  }

  /** The linear scan from index `from`: the first in-use index at or after
      `from` holding `a`, or None when there is none. */
  function Scan(reg: Registry, a: U16, from: nat): (r: Option<nat>)
    requires reg.Bounded() && from <= reg.count
    ensures r.Some? ==> from <= r.value < reg.count && reg.slots[r.value].address == a
    ensures r.Some? ==> forall j :: from <= j < r.value ==> reg.slots[j].address != a
    ensures r.None? ==> forall j :: from <= j < reg.count ==> reg.slots[j].address != a
    decreases reg.count - from
  {
    if from == reg.count then None
    else if reg.slots[from].address == a then Some(from)
    else Scan(reg, a, from + 1)
  }

  /** The first in-use index holding `a`. */
  function Find(reg: Registry, a: U16): (r: Option<nat>)
    requires reg.Bounded()
    ensures r.Some? <==> reg.Known(a)
    ensures r.Some? ==> r.value < reg.count && reg.slots[r.value].address == a
    ensures r.Some? ==> forall j :: 0 <= j < r.value ==> reg.slots[j].address != a
  {
    Scan(reg, a, 0)
  }

  /** In distinct registries the first match is the only match. */
  lemma FindUnique(reg: Registry, a: U16, i: nat)
    requires reg.Bounded() && reg.Distinct()
    requires i < reg.count && reg.slots[i].address == a
    ensures Find(reg, a) == Some(i)
  {
  }
}
