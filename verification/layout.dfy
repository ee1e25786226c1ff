/** Fixed offsets of the primary volume descriptor (section 8.4 of ECMA-119) and of a
    directory record (section 9.1), and the program's address arithmetic for records. */
module Layout {
  import opened ByteBuffer
  import opened Names

  /** The primary volume descriptor sits in sector 16. */
  const DescriptorBase: int := 16 * 2048
  const TotalSectorsField: int := DescriptorBase + 80
  const TablePathLenField: int := DescriptorBase + 132
  const RootLbaField: int := DescriptorBase + 158
  const RootSizeField: int := DescriptorBase + 166

  /** The k-th path-table pointer of the descriptor, k in 0..3. */
  function TablePathLbaField(k: nat): int
  {
    DescriptorBase + 140 + 4 * k
  }

  /** Offsets inside a directory record. */
  const RecLba: int := 2
  const RecLbaBE: int := 6
  const RecSize: int := 10
  const RecSizeBE: int := 14
  const RecFlags: int := 25
  const RecNameLen: int := 32
  const RecName: int := 33

  /** The flag byte value the program takes to mean "directory" (it compares the whole byte). */
  const DirectoryFlag: Byte := 2

  /** Absolute byte position of the record at `pos` in sector `i` of the extent at `lba`:
      `sectorSize * (lba + i) + pos`, computed in `uint` and so reduced modulo 2^32. */
  function RecordPosition(lba: U32, i: nat, pos: nat): (p: nat)
    ensures p < TwoTo32
    ensures p == RecordOrdinal(lba, i, pos) % TwoTo32
  {
    (2048 * Wrap32(lba + i) + pos) % TwoTo32
  }

  /** The search's position: the sector base `sectorSize * (lba + i)` is computed in `uint`,
      but the in-sector offset is a 64-bit `long`, so only the base wraps. */
  function SearchPosition(lba: U32, i: nat, pos: nat): (p: nat)
    ensures pos <= p < TwoTo32 + pos
    ensures p - pos == RecordOrdinal(lba, i, 0) % TwoTo32
  {
    (2048 * Wrap32(lba + i)) % TwoTo32 + pos
  }

  /** The same position as the TOC pass computes it for its `> found` test: the sector
      number is widened to 64 bits before the multiplication, so only `lba + i` wraps. */
  function RecordOrdinal(lba: U32, i: nat, pos: nat): (r: nat)
    ensures pos < 2048 ==> r / 2048 == Wrap32(lba + i) && r % 2048 == pos
  {
    Wrap32(lba + i) * 2048 + pos
  }

  /** Below 4 GiB the three address computations agree: the search and the TOC pass visit
      the same byte, and the TOC pass's `> found` test compares true positions. */
  lemma PositionsAgree(lba: U32, i: nat, pos: nat)
    requires Wrap32(lba + i) * 2048 + pos < TwoTo32
    ensures RecordPosition(lba, i, pos) == RecordOrdinal(lba, i, pos)
    ensures SearchPosition(lba, i, pos) == RecordOrdinal(lba, i, pos)
  {
    assert 2048 * Wrap32(lba + i) < TwoTo32;
  }

  /** The record at `p` has its fixed part and its whole name inside the image. */
  predicate NameInRange(img: seq<Byte>, p: int)
  {
    0 <= p && p + RecName <= |img| && p + RecName + img[p + RecNameLen] <= |img|
  }

  function NameBytes(img: seq<Byte>, p: int): (raw: seq<Byte>)
    requires NameInRange(img, p)
    ensures |raw| == img[p + RecNameLen]
  {
    img[p + RecName..p + RecName + img[p + RecNameLen]]
  }

  /** A record the search may return: a non-empty record, whose flag byte is not the
      directory value, and which is not a `.`/`..` entry. */
  predicate FileRecordAt(img: seq<Byte>, p: int)
  {
    && NameInRange(img, p)
    && img[p] != 0
    && img[p + RecFlags] != DirectoryFlag
    && !IsDot(NameBytes(img, p), StrippedLength(NameBytes(img, p)))
  }

  /** A record the search descends into: non-empty, flag byte equal to the directory
      value, and not a `.`/`..` entry. */
  predicate DirRecordAt(img: seq<Byte>, p: int)
  {
    && NameInRange(img, p)
    && img[p] != 0
    && img[p + RecFlags] == DirectoryFlag
    && !IsDot(NameBytes(img, p), StrippedLength(NameBytes(img, p)))
  }
}
