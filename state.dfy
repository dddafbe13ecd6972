/** Persisted types of the registry: the 128-bit counter and the message record. */
module State {

  /** One more than the largest value of a Rust `u128`. */
  const U128_LIMIT: nat := 0x1_0000_0000_0000_0000_0000_0000_0000_0000

  /** The largest `u128`, the value at which `checked_add(1)` fails. */
  const U128_MAX: nat := U128_LIMIT - 1

  /** An unsigned 128-bit integer (Rust `u128`, CosmWasm `Uint128`). */
  type U128 = x: nat | x < U128_LIMIT

  /** A stored message: its id (also its storage key), the sender that added it,
      and the caller-supplied topic and text. */
  datatype Message = Message(id: U128, owner: string, topic: string, message: string)
}
