/** Constants of the benchmark: sizes, test-flag bits and the run-state values. */
module Config {
  /** Bytes in the shared random-data buffer (RANDOM_DATA_BYTES). */
  const RANDOM_DATA_BYTES: int := 1048576
  /** The same buffer counted in 32-bit words, the granularity of the model. */
  const RANDOM_DATA_WORDS: int := RANDOM_DATA_BYTES / 4

  /** Capacity of the per-thread table; one more slot holds the aggregate. */
  const MAX_THREADS: int := 256
  /** Index of the aggregate record (global_state == state[MAX_THREADS]). */
  const GLOBAL: int := MAX_THREADS

  /** One GiB: the file size is given in GiB and shifted left by 30. */
  const GIB: int := 0x4000_0000

  // Bits of test_flags.
  const MOZZIO_RANDOM: bv8 := 0x01
  const MOZZIO_SEQUENTIAL: bv8 := 0x02
  const MOZZIO_WRITE: bv8 := 0x08

  // Values of the shared run-state flag state_flag.
  const MOZZIO_STOPPED: int := 0
  const MOZZIO_STARTING: int := 1
  const MOZZIO_RUNNING: int := 2
}
