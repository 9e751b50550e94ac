/** The fixed sizes of a page. */
module PageLayout {
  const PAGE_SIZE: nat := 4096
  const PAGE_HEADER_SIZE: nat := 32
  const SLOT_SIZE: nat := 4
  const USABLE_SPACE: nat := PAGE_SIZE - PAGE_HEADER_SIZE
  const OVERFLOW_PAYLOAD: nat := PAGE_SIZE - PAGE_HEADER_SIZE - 8
  const MAX_KEY_SIZE: nat := 1024
  const MAX_INLINE_VALUE: nat := 1024
  const SENTINEL: nat := 0xFFFF_FFFF
}
