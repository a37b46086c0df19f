/** The storage collaborator, seen from the engine: which callbacks were
    supplied, the values a restore would read back, and the writes and
    commits the engine issues. Byte-level layout is not modelled: a write
    records the 16-bit values it persists. */
module Storage {
  import opened Wire
  import opened Codes

  /** Which of the read, write and commit callbacks are non-null. */
  datatype Hooks = Hooks(canRead: bool, canWrite: bool, canCommit: bool)

  /** One persistence event, in the order the engine issues them. */
  datatype StorageOp =
    | AddressTable(addresses: seq<U16>)
    | AddressCount(count: U16)
    | SelfResetCounter(value: U16)
    | Commit

  /** What the storage holds when the engine restores from it. */
  datatype Image = Image(
    addresses: seq<U16>,
    resetCounters: seq<U16>,
    count: U16,
    selfResetCounter: U16)

  /** Writing through the write callback: nothing is written, and
      `NotInit` is reported, when the callback is missing. */
  function Persist(hooks: Hooks, op: StorageOp): (r: (Status, seq<StorageOp>))
    requires op != Commit
    ensures r.0 == Success <==> hooks.canWrite
    ensures r.0 == NotInit <==> !hooks.canWrite
    ensures hooks.canWrite ==> r.1 == [op]
    ensures !hooks.canWrite ==> r.1 == []
  {
    if hooks.canWrite then (Success, [op]) else (NotInit, [])
  }
}
