/** Sector arithmetic and the sector splice (UMDReplaceK/Program.cs, `ConvertToSectors`
    and `ExchangeSectors`). A sector is 2048 bytes and sector `n` starts at byte `n * 2048`. */
module Sectors {
  import opened Outcomes
  import opened ByteBuffer

  const SectorSize: int := 2048

  /** `(size + 2047) / 2048` computed in `uint`: the sum wraps for sizes within 2047 of 2^32. */
  function CeilSectors(size: U32): (r: U32)
    ensures r < 0x20_0000
    ensures size <= TwoTo32 - SectorSize ==> size <= r * SectorSize < size + SectorSize
    ensures size > TwoTo32 - SectorSize ==> r == 0
  {
    Wrap32(size + SectorSize - 1) / SectorSize
  }

  function Zeros(n: nat): (z: seq<Byte>)
    ensures |z| == n
    ensures forall k :: 0 <= k < n ==> z[k] == 0
  {
    seq(n, _ => 0)
  }

  /** `ConvertToSectors`: zero-pad up to the next sector boundary. */
  function Pad(data: seq<Byte>): (r: seq<Byte>)
    ensures |r| % SectorSize == 0
    ensures |data| <= |r| < |data| + SectorSize
    ensures r[..|data|] == data
    ensures forall k :: |data| <= k < |r| ==> r[k] == 0
    ensures |data| % SectorSize == 0 ==> r == data
  {
    if |data| % SectorSize == 0 then data
    else data + Zeros(SectorSize - |data| % SectorSize)
  }

  /** The padded payload occupies exactly the number of sectors `CeilSectors` counts for it. */
  lemma PadCoversCeilSectors(data: Image)
    ensures |Pad(data)| == SectorSize * CeilSectors(|data|)
  {
    var n := CeilSectors(|data|);
    var p := |Pad(data)|;
    assert p % SectorSize == 0;
    assert p == SectorSize * (p / SectorSize);
    assert |data| <= n * SectorSize < |data| + SectorSize;
    assert |data| <= p < |data| + SectorSize;
  }

  /** First byte after the kept prefix, as `(int)(offset * sectorSize)` computes it. */
  function CutPoint(offset: int): (r: int)
    ensures -TwoTo31 <= r < TwoTo31 && (r - offset * SectorSize) % TwoTo32 == 0
    ensures -TwoTo31 <= offset * SectorSize < TwoTo31 ==> r == offset * SectorSize
  {
    ToInt32(offset * SectorSize)
  }

  /** First byte of the kept suffix, as `(int)(sectorSize * (offset + originalFileSectors))` computes it,
      with the inner `int` sum wrapping. */
  function ResumePoint(offset: int, count: int): (r: int)
    ensures -TwoTo31 <= r < TwoTo31 && (r - SectorSize * (offset + count)) % TwoTo32 == 0
    ensures -TwoTo31 <= SectorSize * (offset + count) < TwoTo31 ==> r == SectorSize * (offset + count)
  {
    var sum := ToInt32(offset + count);
    var r := ToInt32(SectorSize * sum);
    ResumeCongruent(offset + count, sum, r);
    r
  }

  /** Wrapping the sum before scaling it by the sector size loses nothing modulo 2^32, and
      nothing at all when the true product fits in an `int`. */
  lemma ResumeCongruent(x: int, sum: int, r: int)
    requires -TwoTo31 <= sum < TwoTo31 && (sum - x) % TwoTo32 == 0
    requires -TwoTo31 <= x < TwoTo31 ==> sum == x
    requires (r - SectorSize * sum) % TwoTo32 == 0
    requires -TwoTo31 <= SectorSize * sum < TwoTo31 ==> r == SectorSize * sum
    ensures (r - SectorSize * x) % TwoTo32 == 0
    ensures -TwoTo31 <= SectorSize * x < TwoTo31 ==> r == SectorSize * x
  {
    ScaleCongruent(sum, x, SectorSize);
    var p := (r - SectorSize * sum) / TwoTo32;
    var q := (SectorSize * sum - SectorSize * x) / TwoTo32;
    assert r - SectorSize * x == TwoTo32 * (p + q);
    if -TwoTo31 <= SectorSize * x < TwoTo31 {
      assert -TwoTo31 <= x < TwoTo31;
    }
  }

  /** Scaling keeps a congruence modulo 2^32. */
  lemma ScaleCongruent(a: int, b: int, c: int)
    requires (a - b) % TwoTo32 == 0
    ensures (c * a - c * b) % TwoTo32 == 0
  {
    var q := (a - b) / TwoTo32;
    assert a - b == TwoTo32 * q;
    assert c * a - c * b == TwoTo32 * (c * q);
  }

  /** `ExchangeSectors`: the bytes before `offset`'s sector, the padded payload, and the bytes from
      sector `offset + count` on. A slice outside the image throws; so does a result too long for a span. */
  function ExchangeSectors(image: Image, offset: int, count: int, data: Image): (r: Result<Image>)
    ensures r.Ok? <==>
      && 0 <= CutPoint(offset) <= |image|
      && 0 <= ResumePoint(offset, count) <= |image|
      && CutPoint(offset) + |Pad(data)| + (|image| - ResumePoint(offset, count)) < TwoTo31
    ensures r.Err? ==> r.fault == OutOfRange || r.fault == TooLarge
    ensures r.Ok? ==>
      var cut, resume, p := CutPoint(offset), ResumePoint(offset, count), |Pad(data)|;
      && |r.value| == cut + p + (|image| - resume)
      && r.value[..cut] == image[..cut]
      && r.value[cut..cut + |data|] == data
      && (forall k :: cut + |data| <= k < cut + p ==> r.value[k] == 0)
      && r.value[cut + p..] == image[resume..]
  {
    var cut := CutPoint(offset);
    var resume := ResumePoint(offset, count);
    if !(0 <= cut <= |image|) || !(0 <= resume <= |image|) then Err(OutOfRange)
    else
      var joined := image[..cut] + Pad(data) + image[resume..];
      if |joined| >= TwoTo31 then Err(TooLarge)
      else
        assert joined[cut..cut + |data|] == Pad(data)[..|data|];
        assert joined[cut + |Pad(data)|..] == image[resume..];
        Ok(joined)
  }

  /** When neither sector number wraps, the splice keeps `image[0 .. offset*2048)` and
      `image[(offset+count)*2048 ..)` byte for byte, and the length changes by
      `|Pad(data)| - count*2048`. */
  lemma SpliceFraming(image: Image, offset: nat, count: nat, data: Image)
    requires (offset + count) * SectorSize <= |image|
    ensures CutPoint(offset) == offset * SectorSize
    ensures ResumePoint(offset, count) == (offset + count) * SectorSize
    ensures var r := ExchangeSectors(image, offset, count, data);
      && (r.Ok? || r == Err(TooLarge))
      && (r.Ok? ==>
          && |r.value| == |image| - count * SectorSize + |Pad(data)|
          && r.value[..offset * SectorSize] == image[..offset * SectorSize]
          && r.value[offset * SectorSize + |Pad(data)|..] == image[(offset + count) * SectorSize..])
  {
    assert offset * SectorSize <= (offset + count) * SectorSize;
  }

  /** With the program's `int` conversions of a sector number and a count whose sum stays
      below 2^20, a successful splice changes the length by the payload's sector count minus
      `count`, in sectors. */
  lemma SpliceLength(image: Image, lba: U32, count: U32, data: Image)
    requires lba + count < 0x10_0000
    requires ExchangeSectors(image, ToInt32(lba), ToInt32(count), data).Ok?
    ensures |ExchangeSectors(image, ToInt32(lba), ToInt32(count), data).value|
      == |image| + SectorSize * (CeilSectors(|data|) - count)
  {
    assert ToInt32(lba) == lba && ToInt32(count) == count;
    assert ToInt32(lba + count) == lba + count;
    assert ResumePoint(lba, count) == (lba + count) * SectorSize;
    SpliceFraming(image, lba, count, data);
    PadCoversCeilSectors(data);
  }

  /** Splicing the original sectors back over a payload restores the image. */
  lemma SpliceRoundTrip(image: Image, offset: nat, count: nat, data: Image)
    requires (offset + count) * SectorSize <= |image|
    requires ExchangeSectors(image, offset, count, data).Ok?
    ensures var once := ExchangeSectors(image, offset, count, data).value;
      var original := image[offset * SectorSize..(offset + count) * SectorSize];
      ExchangeSectors(once, offset, CeilSectors(|data|), original) == Ok(image)
  {
    SpliceFraming(image, offset, count, data);
    var once := ExchangeSectors(image, offset, count, data).value;
    var cut := offset * SectorSize;
    var resume := (offset + count) * SectorSize;
    var original := image[cut..resume];
    var n := CeilSectors(|data|);
    PadCoversCeilSectors(data);
    SectorSpan(offset, n);
    SectorSpan(offset, count);
    SpliceFraming(once, offset, n, original);
    assert Pad(original) == original;
    var twice := ExchangeSectors(once, offset, n, original).value;
    assert twice[cut + |original|..] == image[resume..] by {
      assert twice[cut + |original|..] == once[cut + |Pad(data)|..];
    }
    SameByParts(twice, image, cut, resume);
  }

  /** The byte offset of sector `offset + count` is `count` sectors past that of `offset`. */
  lemma SectorSpan(offset: nat, count: nat)
    ensures (offset + count) * SectorSize == offset * SectorSize + count * SectorSize
  {
  }

  /** Two sequences of the same length that agree on `[0, i)`, `[i, j)` and `[j, ..)` are equal. */
  lemma SameByParts(a: seq<Byte>, b: seq<Byte>, i: nat, j: nat)
    requires i <= j <= |a| == |b|
    requires a[..i] == b[..i] && a[i..j] == b[i..j] && a[j..] == b[j..]
    ensures a == b
  {
    assert a == a[..i] + a[i..j] + a[j..];
    assert b == b[..i] + b[i..j] + b[j..];
  }
}
