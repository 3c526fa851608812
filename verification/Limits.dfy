/** Sizes and limits of gzip.c. */
module Limits {
  const MAX_BITS: nat := 15          // longest code
  const LENGTH_CODES: nat := 29
  const L_CODES: nat := 286          // literals, end of block, lengths
  const D_CODES: nat := 30
  const BL_CODES: nat := 19          // codes for code lengths
  const HEAP_SIZE: nat := 573        // 2 * L_CODES + 1
  const MIN_MATCH: nat := 3
  const MAX_MATCH: nat := 258
  const LIT_BUFSIZE: nat := 0x2000
  const DIST_BUFSIZE: nat := 0x2000
  const OUTBUFSIZ: nat := 8192
  const WSIZE: nat := 0x8000
  const MIN_LOOKAHEAD: nat := 262    // MAX_MATCH + MIN_MATCH + 1
  const MAX_DIST: nat := 32506       // WSIZE - MIN_LOOKAHEAD
  const HASH_SIZE: nat := 8192
  const TOO_FAR: nat := 4096
  const MAX_CHAIN_LENGTH: nat := 4096
  const GOOD_MATCH: nat := 32
  const MAX_LAZY_MATCH: nat := 258
  const NICE_MATCH: nat := 258
}
