/** Value types and compile-time bounds shared by the transport and the clock synchronizer. */
module RadioTypes {

  type u8 = x: int | 0 <= x < 0x100
  type u16 = x: int | 0 <= x < 0x1_0000
  type u32 = x: int | 0 <= x < 0x1_0000_0000
  type u64 = x: int | 0 <= x < 0x1_0000_0000_0000_0000
  type bytes = seq<u8>
  type Positive = n: nat | 0 < n witness 1

  const U32_MODULUS := 0x1_0000_0000
  const U64_MODULUS := 0x1_0000_0000_0000_0000

  const BROADCAST_NODE: u16 := 0xFFFF

  // The macros that size the transport; the theorems hold for every value of them.
  const MAX_REASSEMBLIES: Positive
  const MAX_RECENT_MESSAGES: Positive
  const MAX_MESSAGE_BYTES: nat
  // Number of values of std::size_t on the target.
  const SIZE_MODULUS: Positive

  datatype Option<+T> = None | Some(value: T)

  /** An opaque link address: the first Length bytes of the record, which is all that comparison looks at. */
  type RadioAddress = seq<u8>
  const MAX_ADDRESS_BYTES := 8

  predicate IsValidAddress(a: RadioAddress) {
    0 < |a| <= MAX_ADDRESS_BYTES
  }

  function BroadcastAddress(length: u8): RadioAddress {
    if length == 0 || length > MAX_ADDRESS_BYTES then [] else seq(length, _ => 0xFF)
  }

  datatype RadioSendStatus =
    | Accepted | NotStarted | InvalidAddress | PayloadTooLarge
    | Busy | NoMemory | Unsupported | NativeFailure
}
