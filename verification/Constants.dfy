/** Sizes and limits of the collector (src/constants.rs), in bytes unless named otherwise. */
module Constants {
  const BLOCK_SIZE := 32768
  const LINE_SIZE := 256
  const NUM_LINES := 128
  const PAGE_SIZE := 4096
  const TOTAL_BLOCKS := 32768
  const HEAP_SIZE := TOTAL_BLOCKS * BLOCK_SIZE
  const MEDIUM_OBJECT := 256
  const LARGE_OBJECT := 8192
  const EVAC_HEADROOM := 5

  /** One hundredth of all blocks, rounded down, for both triggers. */
  const EVAC_TRIGGER_BLOCKS := 327
  const CYCLE_TRIGGER_BLOCKS := 327

  /** Zero: the write barrier never asks for a collection. */
  const WRITE_BARRIER_COLLECT_THRESHOLD := 0

  /** The highest offset of a block: the `high` of a hole that covers a whole free block. */
  const LAST_OFFSET := 32767
}

/** The stock optional value. */
module Wrappers {
  datatype Option<+T> = None | Some(value: T)
}
