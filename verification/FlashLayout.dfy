// The flash partitions the update path writes to.

module FlashLayout {
  // The running image's slot, and the largest image that may be staged.
  const ACTIVE_BYTES: nat := 780 * 1024
  // The staging slot: one page longer than the active slot.
  const DFU_BYTES: nat := 784 * 1024
  // The chunk in which an image body is streamed.
  const CHUNK_BYTES: nat := 4096

  predicate CanFitInActive(size: nat) { size <= ACTIVE_BYTES }
}
