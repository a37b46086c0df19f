/** Result codes of the protocol engine (the `WiLP_RETURN_*` constants,
    whose numeric values live in a header that is not part of this model)
    and an option type. */
module Codes {

  datatype Option<+T> = None | Some(value: T)

  datatype Status =
    | Success
    | InvalidBuffer     // first byte is not the magic number
    | NotThisDest       // destination is neither this node nor broadcast
    | UnknownType       // type byte has no known payload length
    | InvalidMsgCtr     // message counter not newer than the stored one
    | InvalidRstCtr     // reset counter older than the stored one
    | AddedAddress      // first frame from a peer, peer recorded
    | AtMaxAddresses    // first frame from a peer, registry full
    | NotInit           // a storage callback is missing
    | OtherError        // the validator's unreachable fall-through return
}
