/** Host addresses and handles of the garbage-collected heap. */
module HeapTypes {

  type Ptr = nat
  type Handle = nat

  const NULL_HANDLE: Handle := 0xFFFF_FFFF

  /** Bytes of the header that precedes every payload. */
  const HEADER: nat := 8
}
