/** Where the bring-up log lies on the partition it shares with the rootfs, in blocks. */
module Layout {
  const SLOT_A := 4194304
  const SLOT_BLOCKS := 16384
  const SLOT_B := SLOT_A + SLOT_BLOCKS

  /** Block 0 of a slot is its header. */
  const PAYLOAD_BLOCKS := SLOT_BLOCKS - 1
}
