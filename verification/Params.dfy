/** The limits of kernel/param.h that the log, the buffer cache and the files have in common. */
module Params {
  const MAXOPBLOCKS := 10               // blocks that one file-system operation may write
  const LOGSIZE := 30                   // MAXOPBLOCKS * 3, data blocks in the log
  const NBUF := 30                      // MAXOPBLOCKS * 3, buffers in the cache
}
