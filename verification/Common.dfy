/**
 * Shared vocabulary of the store (include/common.h, include/config.h,
 * include/consts.h): keys, values, tables and the tuning constants. The
 * constants are parameters, so nothing below depends on their defaults.
 */
module Common {

  datatype Option<+T> = None | Some(value: T)

  type Key = k: int | -0x8000_0000 <= k <= 0x7fff_ffff

  type Val = v: int | -0x8000_0000 <= v <= 0x7fff_ffff

  type Byte = b: int | 0 <= b < 256

  datatype Pair = Pair(key: Key, val: Val)

  // Both sstable_t (a sorted vector of pairs) and buffer_t (an ordered map,
  // seen as the sequence of pairs its iterators visit).
  type Table = seq<Pair>

  // The value that Delete writes; MergeSSTable also compares keys with it.
  const TOMBSTONE: Val := -0x8000_0000

  const KEY_SIZE: nat := 4

  const RECORD_SIZE: nat := 8

  const PAGE_HEADER_MAGIC: Byte := 0xAA

  const BLOOM_BITS: nat := 64

  // magic number, number of pairs, page id, Bloom filter
  const PAYLOAD_OFFSET: nat := 17

  datatype Config = Config(
    maxLevelNum: nat,
    maxRunPerLevel: nat,
    maxBufferSize: nat,
    pageSize: nat,
    logBufferSize: nat)
  {
    function TotalPages(): nat {
      (1 + maxLevelNum) * maxLevelNum * maxRunPerLevel / 2
    }

    // How many pairs fit behind the header of one page.
    function Capacity(): int {
      (pageSize - PAYLOAD_OFFSET) / RECORD_SIZE
    }

    predicate Shape() {
      && 2 <= maxLevelNum
      && 1 <= maxRunPerLevel
      && 2 <= maxBufferSize
      && PAYLOAD_OFFSET <= pageSize <= 0x7fff_ffff
      && RECORD_SIZE < logBufferSize
    }

    // Every page id and file offset is a 32-bit integer, as the store assumes.
    predicate Valid() {
      && Shape()
      && TotalPages() <= 0x7fff_ffff
      && TotalPages() * pageSize <= 0x7fff_ffff
    }
  }

  // The values the source ships with.
  const DEFAULTS := Config(5, 1, 5, 1024, 24)

  lemma DefaultsValid()
    ensures DEFAULTS.Valid() && DEFAULTS.TotalPages() == 15 && DEFAULTS.Capacity() == 125
  {}
}
