/**
 * The choices perform_test makes before it starts the workers: how the target
 * is opened, whether the page cache is dropped, the file size, the byte bound
 * of the phase, the initial run state, and each worker's share of the bound.
 */
module Setup {
  import opened Config

  /**
   * The access flags passed to open besides O_CREAT and O_LARGEFILE: write-only
   * or read-only, and O_SYNC, O_TRUNC, O_APPEND.
   */
  datatype OpenMode = OpenMode(write: bool, sync: bool, truncate: bool, append: bool)

  /** fd_flags: read-only by default; writes are synchronous when random, truncating appends when sequential. */
  function OpenModeFor(testFlags: bv8): (m: OpenMode)
    ensures m.write <==> testFlags & MOZZIO_WRITE != 0
    ensures m.sync <==> m.write && testFlags & MOZZIO_RANDOM != 0
    ensures m.truncate <==> m.write && testFlags & MOZZIO_RANDOM == 0
    ensures m.append == m.truncate
  {
    if testFlags & MOZZIO_WRITE != 0 then
      if testFlags & MOZZIO_RANDOM != 0 then OpenMode(true, true, false, false)
      else OpenMode(true, false, true, true)
    else OpenMode(false, false, false, false)
  }

  /** The page cache is dropped before every phase that does not write. */
  predicate DropsCache(testFlags: bv8)
    ensures DropsCache(testFlags) <==> !OpenModeFor(testFlags).write
  {
    testFlags & MOZZIO_WRITE == 0
  }

  /** The file size in bytes: the size in GiB shifted left by 30. */
  function FileSize(gb: int): (bytes: int)
    ensures gb >= 0 ==> bytes >= 0 && bytes % GIB == 0 && bytes / GIB == gb
  {
    gb * GIB
  }

  /** The phase's byte bound: the whole file for a sequential phase, none (0) otherwise. */
  function BytesTotal(testFlags: bv8, filesize: int): (total: int)
    ensures total == 0 || total == filesize
    ensures filesize != 0 ==> (total == filesize <==> testFlags & MOZZIO_SEQUENTIAL != 0)
  {
    if testFlags & MOZZIO_SEQUENTIAL != 0 then filesize else 0
  }

  /** With more than one worker the phase starts in the STARTING state, otherwise RUNNING. */
  function StartFlag(numThreads: int): (flag: int)
    ensures flag == MOZZIO_STARTING <==> numThreads > 1
    ensures flag == MOZZIO_STARTING || flag == MOZZIO_RUNNING
  {
    if numThreads > 1 then MOZZIO_STARTING else MOZZIO_RUNNING
  }

  /** C's integer division, which truncates toward zero. */
  function CDiv(a: int, n: int): (q: int)
    requires n > 0
    ensures a >= 0 ==> 0 <= q && 0 <= a - n * q < n
    ensures a <= 0 ==> q <= 0 && 0 <= n * q - a < n
  {
    if a >= 0 then a / n else -((-a) / n)
  }

  /**
   * Each worker's quota, bytes_total / num_threads: the n quotas together fall
   * short of a non-negative total by less than n bytes.
   */
  function Quota(total: int, n: int): (q: int)
    requires n > 0
    ensures total >= 0 ==> 0 <= q && n * q <= total < n * q + n
    ensures total <= 0 ==> q <= 0 && n * q >= total
  {
    CDiv(total, n)
  }
}
