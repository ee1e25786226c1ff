/** The TOC pass (UMDReplaceK/Program.cs, `TOC`): the same depth-first walk as the search,
    rewriting directory records instead of matching them.

    Every visited record, `.` and `..` included, has its LBA (little-endian at +2,
    big-endian at +6) moved by the sector delta when it lies after the replaced file:
    its LBA is greater than the file's old LBA, or equal to it with the record placed
    after the replaced file's record. A subdirectory is then walked at its LBA as just
    written, in the image as patched so far. Each sector is scanned while `pos` is below the
    directory's length (`ScanLimitAsWritten`), as the program does, so a full sector runs on
    into the next one; `TocDirCorrected` stops at the end of the sector as the search does
    (`ScanLimit`). */
module TocUpdate {
  import opened Outcomes
  import opened ByteBuffer
  import opened Names
  import opened Sectors
  import opened Layout

  /** The shift test for one record: its LBA, its position as the pass computes it, the
      replaced file's old LBA and its record position. */
  predicate ShouldShift(recLba: U32, ordinal: nat, lbaOld: U32, found: nat)
  {
    recLba > lbaOld || (recLba == lbaOld && ordinal > found)
  }

  /** One record: when the shift test holds, both copies of its LBA become `LBA + diff`
      (wrapping) and no other byte changes; otherwise the image is unchanged. */
  function ShiftRecord(img: Image, at: nat, ordinal: nat, found: nat, lbaOld: U32, diff: int): (r: Image)
    requires at + 10 <= |img|
    ensures |r| == |img|
    ensures ShouldShift(LE32(img, at + RecLba), ordinal, lbaOld, found) ==>
      && LE32(r, at + RecLba) == Wrap32(LE32(img, at + RecLba) + diff)
      && BE32(r, at + RecLbaBE) == Wrap32(LE32(img, at + RecLba) + diff)
      && SameOutside(img, r, at + RecLba, at + RecSize)
    ensures !ShouldShift(LE32(img, at + RecLba), ordinal, lbaOld, found) ==> r == img
  {
    var recLba := LE32(img, at + RecLba);
    if ShouldShift(recLba, ordinal, lbaOld, found) then PutBoth32(img, at + RecLba, Wrap32(recLba + diff))
    else img
  }

  /** Two zero-length files share an LBA: the one whose record comes first is not moved
      when the second is replaced. */
  lemma EarlierSiblingNotShifted(img: Image, at: nat, ordinal: nat, found: nat, lbaOld: U32, diff: int)
    requires at + 10 <= |img|
    requires LE32(img, at + RecLba) == lbaOld
    requires ordinal <= found
    ensures ShiftRecord(img, at, ordinal, found, lbaOld, diff) == img
  {
  }

  /** An image after the TOC pass, the positions of the records it rewrote in the order
      it rewrote them, and the position each was compared at (its ordinal). */
  datatype Rewritten = Rewritten(image: Image, log: seq<nat>, ordinals: seq<nat>)

  /** Shared frame of the walk: only the LBA fields [p+2, p+10) of logged records change,
      each logged record lies inside the image, and each has its ordinal. */
  predicate FramedBy(img: Image, r: Rewritten)
  {
    && SameOutsideWindows(img, r.image, r.log, RecLba, RecSize)
    && |r.ordinals| == |r.log|
    && forall j :: 0 <= j < |r.log| ==> r.log[j] + RecSize <= |img|
  }

  /** No two logged records share a byte of their LBA fields. */
  predicate Disjoint(log: seq<nat>)
  {
    forall a, b :: 0 <= a < b < |log| ==> log[a] + 8 <= log[b] || log[b] + 8 <= log[a]
  }

  /** The record at `p` passed the shift test in `before` and holds the shifted LBA, in
      both byte orders, in `after`. */
  predicate MovedRecord(before: seq<Byte>, after: seq<Byte>, p: nat, ordinal: nat, found: nat, lbaOld: U32, diff: int)
  {
    && p + RecSize <= |before| && |after| == |before|
    && ShouldShift(LE32(before, p + RecLba), ordinal, lbaOld, found)
    && LE32(after, p + RecLba) == Wrap32(LE32(before, p + RecLba) + diff)
    && BE32(after, p + RecLbaBE) == Wrap32(LE32(before, p + RecLba) + diff)
  }

  /** What the log means: when no two logged records overlap (so that none was rewritten
      twice), every logged record passed the shift test on the image the pass started from
      and ends holding its old LBA plus the delta. */
  predicate Moved(img: Image, r: Rewritten, found: nat, lbaOld: U32, diff: int)
  {
    |r.ordinals| == |r.log| &&
    (Disjoint(r.log) ==>
      forall j :: 0 <= j < |r.log| ==> MovedRecord(img, r.image, r.log[j], r.ordinals[j], found, lbaOld, diff))
  }

  /** The join of two consecutive stages of the walk. */
  function Then(b: Rewritten, c: Rewritten): Rewritten
  {
    Rewritten(c.image, b.log + c.log, b.ordinals + c.ordinals)
  }

  lemma FramedByTrans(a: Image, b: Rewritten, c: Rewritten)
    requires FramedBy(a, b)
    requires FramedBy(b.image, c)
    ensures FramedBy(a, Then(b, c))
  {
    SameOutsideWindowsTrans(a, b.image, c.image, b.log, c.log, RecLba, RecSize);
    var log := b.log + c.log;
    forall j | 0 <= j < |log|
      ensures log[j] + RecSize <= |a|
    {
      if j >= |b.log| {
        assert log[j] == c.log[j - |b.log|];
      }
    }
  }

  /** The halves of a disjoint log are disjoint, and apart from each other. */
  lemma DisjointSplit(l1: seq<nat>, l2: seq<nat>)
    requires Disjoint(l1 + l2)
    ensures Disjoint(l1) && Disjoint(l2)
    ensures forall i, j :: 0 <= i < |l1| && 0 <= j < |l2| ==> l1[i] + 8 <= l2[j] || l2[j] + 8 <= l1[i]
  {
    forall a, b | 0 <= a < b < |l1|
      ensures l1[a] + 8 <= l1[b] || l1[b] + 8 <= l1[a]
    {
      assert (l1 + l2)[a] == l1[a] && (l1 + l2)[b] == l1[b];
    }
    forall a, b | 0 <= a < b < |l2|
      ensures l2[a] + 8 <= l2[b] || l2[b] + 8 <= l2[a]
    {
      assert (l1 + l2)[|l1| + a] == l2[a] && (l1 + l2)[|l1| + b] == l2[b];
    }
    forall i, j | 0 <= i < |l1| && 0 <= j < |l2|
      ensures l1[i] + 8 <= l2[j] || l2[j] + 8 <= l1[i]
    {
      assert (l1 + l2)[i] == l1[i] && (l1 + l2)[|l1| + j] == l2[j];
    }
  }

  /** A record 8 or more bytes away from every logged record keeps both LBA copies
      through a stage framed by that log. */
  lemma ApartKeepsFields(x: seq<Byte>, y: seq<Byte>, log: seq<nat>, p: nat)
    requires SameOutsideWindows(x, y, log, RecLba, RecSize)
    requires p + RecSize <= |x|
    requires forall j :: 0 <= j < |log| ==> p + 8 <= log[j] || log[j] + 8 <= p
    ensures LE32(x, p + RecLba) == LE32(y, p + RecLba) && BE32(x, p + RecLbaBE) == BE32(y, p + RecLbaBE)
  {
    forall k | p + RecLba <= k < p + RecSize
      ensures x[k] == y[k]
    {
      assert OutsideAll(k, log, RecLba, RecSize);
    }
    FieldFrame(x, y, p + RecLba);
    FieldFrame(x, y, p + RecLbaBE);
  }

  /** A record moved by a first stage keeps its fields through a second stage whose
      writes all stay 8 or more bytes away from it. */
  lemma MovedThroughLaterStage(a: seq<Byte>, b: seq<Byte>, c: seq<Byte>, cLog: seq<nat>, p: nat, ordinal: nat,
                               found: nat, lbaOld: U32, diff: int)
    requires MovedRecord(a, b, p, ordinal, found, lbaOld, diff)
    requires SameOutsideWindows(b, c, cLog, RecLba, RecSize)
    requires forall j :: 0 <= j < |cLog| ==> p + 8 <= cLog[j] || cLog[j] + 8 <= p
    ensures MovedRecord(a, c, p, ordinal, found, lbaOld, diff)
  {
    ApartKeepsFields(b, c, cLog, p);
  }

  /** A record moved by a second stage read the LBA that the first stage left, which is
      the original one when the first stage's writes all stay 8 or more bytes away. */
  lemma MovedAfterEarlierStage(a: seq<Byte>, b: seq<Byte>, c: seq<Byte>, bLog: seq<nat>, p: nat, ordinal: nat,
                               found: nat, lbaOld: U32, diff: int)
    requires MovedRecord(b, c, p, ordinal, found, lbaOld, diff)
    requires SameOutsideWindows(a, b, bLog, RecLba, RecSize)
    requires forall j :: 0 <= j < |bLog| ==> p + 8 <= bLog[j] || bLog[j] + 8 <= p
    ensures MovedRecord(a, c, p, ordinal, found, lbaOld, diff)
  {
    ApartKeepsFields(a, b, bLog, p);
  }

  /** The meaning of the log survives composition: a record moved by the first stage is
      not touched by the second, and one moved by the second read the LBA the first left,
      which is the original one. */
  lemma MovedTrans(a: Image, b: Rewritten, c: Rewritten, found: nat, lbaOld: U32, diff: int)
    requires FramedBy(a, b) && FramedBy(b.image, c)
    requires Moved(a, b, found, lbaOld, diff) && Moved(b.image, c, found, lbaOld, diff)
    ensures Moved(a, Then(b, c), found, lbaOld, diff)
  {
    var r := Then(b, c);
    if Disjoint(r.log) {
      DisjointSplit(b.log, c.log);
      FirstStageSurvives(a, b, c, found, lbaOld, diff);
      SecondStageReadsOriginal(a, b, c, found, lbaOld, diff);
      forall j | 0 <= j < |r.log|
        ensures MovedRecord(a, r.image, r.log[j], r.ordinals[j], found, lbaOld, diff)
      {
        if j >= |b.log| {
          assert r.log[j] == c.log[j - |b.log|] && r.ordinals[j] == c.ordinals[j - |b.log|];
        } else {
          assert r.log[j] == b.log[j] && r.ordinals[j] == b.ordinals[j];
        }
      }
    }
  }

  /** The records the first stage moved keep their fields through the second stage, whose
      writes stay 8 or more bytes away from them. */
  lemma FirstStageSurvives(a: Image, b: Rewritten, c: Rewritten, found: nat, lbaOld: U32, diff: int)
    requires FramedBy(b.image, c) && Disjoint(b.log) && Moved(a, b, found, lbaOld, diff)
    requires forall i, j :: 0 <= i < |b.log| && 0 <= j < |c.log| ==> b.log[i] + 8 <= c.log[j] || c.log[j] + 8 <= b.log[i]
    ensures forall i :: 0 <= i < |b.log| ==> MovedRecord(a, c.image, b.log[i], b.ordinals[i], found, lbaOld, diff)
  {
    forall i | 0 <= i < |b.log|
      ensures MovedRecord(a, c.image, b.log[i], b.ordinals[i], found, lbaOld, diff)
    {
      MovedThroughLaterStage(a, b.image, c.image, c.log, b.log[i], b.ordinals[i], found, lbaOld, diff);
    }
  }

  /** The records the second stage moved read the LBA the first stage left, which is the
      original one, since the first stage's writes stay 8 or more bytes away from them. */
  lemma SecondStageReadsOriginal(a: Image, b: Rewritten, c: Rewritten, found: nat, lbaOld: U32, diff: int)
    requires FramedBy(a, b) && Disjoint(c.log) && Moved(b.image, c, found, lbaOld, diff)
    requires forall i, j :: 0 <= i < |b.log| && 0 <= j < |c.log| ==> b.log[i] + 8 <= c.log[j] || c.log[j] + 8 <= b.log[i]
    ensures forall j :: 0 <= j < |c.log| ==> MovedRecord(a, c.image, c.log[j], c.ordinals[j], found, lbaOld, diff)
  {
    forall j | 0 <= j < |c.log|
      ensures MovedRecord(a, c.image, c.log[j], c.ordinals[j], found, lbaOld, diff)
    {
      MovedAfterEarlierStage(a, b.image, c.image, b.log, c.log[j], c.ordinals[j], found, lbaOld, diff);
    }
  }

  /** The bound of the record scan within one sector: the directory's length or the end
      of the sector, whichever comes first. */
  function ScanLimit(len: U32): (b: nat)
    ensures b <= SectorSize && b <= len
    ensures b == len || b == SectorSize
  {
    if len < SectorSize then len else SectorSize
  }

  /** The bound as the program writes it: `pos < len`, the whole directory length, so a
      scan that reaches the end of a full sector goes on into the next one. */
  function ScanLimitAsWritten(len: U32): (b: nat)
    ensures b >= ScanLimit(len)
    ensures len > SectorSize ==> b > SectorSize
  {
    len
  }

  /** The record at offset `pos` of sector `i` is a record that passes the shift test. */
  predicate ShiftsAt(img: seq<Byte>, lba: U32, i: nat, pos: nat, found: nat, lbaOld: U32)
  {
    var at := RecordPosition(lba, i, pos);
    NameInRange(img, at) && img[at] != 0 && ShouldShift(LE32(img, at + RecLba), RecordOrdinal(lba, i, pos), lbaOld, found)
  }

  /** Under the bound as written, offset `2048 + q` of the scan of sector `i` is offset `q`
      of sector `i + 1`: when the records of sector `i` fill it to the last byte, the scan
      goes on into sector `i + 1` and rewrites its first record, which the scan of sector
      `i + 1` then rewrites again. */
  lemma RunOnShiftsNextSector(img: Image, lba: U32, len: U32, i: nat, q: nat,
                              found: nat, lbaOld: U32, diff: int, fuel: nat)
    requires lba + i + 1 < TwoTo32
    requires SectorSize + q < ScanLimitAsWritten(len)
    requires ShiftsAt(img, lba, i + 1, q, found, lbaOld)
    ensures RecordPosition(lba, i, SectorSize + q) == RecordPosition(lba, i + 1, q)
    ensures var r := TocRecords(img, lba, ScanLimitAsWritten(len), i, SectorSize + q, found, lbaOld, diff, fuel);
      r.Ok? ==> |r.value.log| > 0 && r.value.log[0] == RecordPosition(lba, i + 1, q)
                && r.value.ordinals[0] == RecordOrdinal(lba, i + 1, q)
  {
    assert RecordPosition(lba, i, SectorSize + q) == RecordPosition(lba, i + 1, q);
    assert RecordOrdinal(lba, i, SectorSize + q) == RecordOrdinal(lba, i + 1, q);
  }

  /** The second rewrite: a record that passed the shift test still passes it, at the same
      ordinal, once its LBA has moved by a positive delta that does not wrap; so the scan
      of sector `i + 1` rewrites the record that the scan of sector `i` already moved. */
  lemma ShiftTestPassesAgain(recLba: U32, ordinal: nat, lbaOld: U32, found: nat, diff: int)
    requires ShouldShift(recLba, ordinal, lbaOld, found)
    requires 0 < diff && recLba + diff < TwoTo32
    ensures Wrap32(recLba + diff) == recLba + diff
    ensures ShouldShift(Wrap32(recLba + diff), ordinal, lbaOld, found)
  {
  }

  /** With the corrected bound every visited offset is below 2048, and below 4 GiB two
      visits reach the same byte only when they are the same sector and offset: no record
      is visited from two sector scans. */
  lemma ScanVisitsDistinct(lba: U32, i: nat, pos: nat, i': nat, pos': nat)
    requires pos < SectorSize && pos' < SectorSize
    requires lba + i < TwoTo32 && lba + i' < TwoTo32
    requires RecordOrdinal(lba, i, pos) < TwoTo32 && RecordOrdinal(lba, i', pos') < TwoTo32
    ensures RecordPosition(lba, i, pos) == RecordPosition(lba, i', pos') ==> i == i' && pos == pos'
  {
    PositionsAgree(lba, i, pos);
    PositionsAgree(lba, i', pos');
    if i < i' {
      assert RecordOrdinal(lba, i, pos) < RecordOrdinal(lba, i', pos');
    } else if i' < i {
      assert RecordOrdinal(lba, i', pos') < RecordOrdinal(lba, i, pos);
    }
  }

  /** The walk of the directory at `lba` of `len` bytes, each sector scanned while the
      offset is below `len`. The directory's first record, when it passes the shift test,
      is the first entry of the log. */
  function TocDir(img: Image, lba: U32, len: U32, found: nat, lbaOld: U32, diff: int, fuel: nat)
    : (r: Result<Rewritten>)
    ensures r.Err? ==> r.fault == OutOfRange || r.fault == DepthExhausted
    ensures r.Ok? ==> FramedBy(img, r.value) && Moved(img, r.value, found, lbaOld, diff)
    ensures r.Ok? && 0 < len <= TwoTo32 - SectorSize && ShiftsAt(img, lba, 0, 0, found, lbaOld) ==>
      |r.value.log| > 0 && r.value.log[0] == RecordPosition(lba, 0, 0)
      && r.value.ordinals[0] == RecordOrdinal(lba, 0, 0)
    decreases fuel, 0, 0, 0
  {
    if fuel == 0 then Err(DepthExhausted)
    else TocSectors(img, lba, ScanLimitAsWritten(len), 0, CeilSectors(len), found, lbaOld, diff, fuel - 1)
  }

  /** The walk with each sector's scan stopped at the end of the sector, as the search
      does: the same promises, and by `ScanVisitsDistinct` no record is reached from two
      sector scans. Its subdirectories are walked as written. */
  function TocDirCorrected(img: Image, lba: U32, len: U32, found: nat, lbaOld: U32, diff: int, fuel: nat)
    : (r: Result<Rewritten>)
    ensures r.Err? ==> r.fault == OutOfRange || r.fault == DepthExhausted
    ensures r.Ok? ==> FramedBy(img, r.value) && Moved(img, r.value, found, lbaOld, diff)
    ensures r.Ok? && 0 < len <= TwoTo32 - SectorSize && ShiftsAt(img, lba, 0, 0, found, lbaOld) ==>
      |r.value.log| > 0 && r.value.log[0] == RecordPosition(lba, 0, 0)
      && r.value.ordinals[0] == RecordOrdinal(lba, 0, 0)
  {
    if fuel == 0 then Err(DepthExhausted)
    else TocSectors(img, lba, ScanLimit(len), 0, CeilSectors(len), found, lbaOld, diff, fuel - 1)
  }

  function TocSectors(img: Image, lba: U32, limit: nat, i: nat, n: nat, found: nat, lbaOld: U32, diff: int, fuel: nat)
    : (r: Result<Rewritten>)
    ensures r.Err? ==> r.fault == OutOfRange || r.fault == DepthExhausted
    ensures r.Ok? ==> FramedBy(img, r.value) && Moved(img, r.value, found, lbaOld, diff)
    ensures r.Ok? && i < n && 0 < limit && ShiftsAt(img, lba, i, 0, found, lbaOld) ==>
      |r.value.log| > 0 && r.value.log[0] == RecordPosition(lba, i, 0)
      && r.value.ordinals[0] == RecordOrdinal(lba, i, 0)
    decreases fuel, 2, n - i, 0
  {
    if i >= n then Ok(Rewritten(img, [], []))
    else
      match TocRecords(img, lba, limit, i, 0, found, lbaOld, diff, fuel)
      case Err(f) => Err(f)
      case Ok(here) =>
        match TocSectors(here.image, lba, limit, i + 1, n, found, lbaOld, diff, fuel)
        case Err(f) => Err(f)
        case Ok(rest) =>
          Chain(img, here, rest, found, lbaOld, diff);
          Ok(Then(here, rest))
  }

  /** The record scan of sector `i` from offset `pos`, while `pos < limit`. The record at
      the cursor, when it passes the shift test, is the first entry of the log. */
  function TocRecords(img: Image, lba: U32, limit: nat, i: nat, pos: nat, found: nat, lbaOld: U32, diff: int, fuel: nat)
    : (r: Result<Rewritten>)
    ensures r.Err? ==> r.fault == OutOfRange || r.fault == DepthExhausted
    ensures r.Ok? ==> FramedBy(img, r.value) && Moved(img, r.value, found, lbaOld, diff)
    ensures r.Ok? && pos < limit && ShiftsAt(img, lba, i, pos, found, lbaOld) ==>
      |r.value.log| > 0 && r.value.log[0] == RecordPosition(lba, i, pos)
      && r.value.ordinals[0] == RecordOrdinal(lba, i, pos)
    decreases fuel, 1, limit - pos, 1
  {
    if pos >= limit then Ok(Rewritten(img, [], []))
    else
      var at := RecordPosition(lba, i, pos);
      if at >= |img| || img[at] == 0 then Ok(Rewritten(img, [], []))
      else if at + RecNameLen >= |img| || at + RecName + img[at + RecNameLen] > |img| then Err(OutOfRange)
      else TocVisit(img, lba, limit, i, pos, at, RecordOrdinal(lba, i, pos), found, lbaOld, diff, fuel)
  }

  /** Joining two consecutive stages keeps both promises of the walk, and the joined log
      starts with the first stage's log. */
  lemma Chain(a: Image, b: Rewritten, c: Rewritten, found: nat, lbaOld: U32, diff: int)
    requires FramedBy(a, b) && Moved(a, b, found, lbaOld, diff)
    requires FramedBy(b.image, c) && Moved(b.image, c, found, lbaOld, diff)
    ensures FramedBy(a, Then(b, c)) && Moved(a, Then(b, c), found, lbaOld, diff)
    ensures |b.log| > 0 ==> Then(b, c).log[0] == b.log[0] && Then(b, c).ordinals[0] == b.ordinals[0]
  {
    FramedByTrans(a, b, c);
    MovedTrans(a, b, c, found, lbaOld, diff);
  }

  /** The visit of the record at `at` (offset `pos` of sector `i`, compared at `ordinal`):
      shift it or not, walk it if it is a subdirectory, then scan on from the next record.
      A record that passes the shift test is the first entry of the log. */
  function TocVisit(img: Image, lba: U32, limit: nat, i: nat, pos: nat, at: nat, ordinal: nat,
                    found: nat, lbaOld: U32, diff: int, fuel: nat)
    : (r: Result<Rewritten>)
    requires pos < limit && NameInRange(img, at) && img[at] != 0
    ensures r.Err? ==> r.fault == OutOfRange || r.fault == DepthExhausted
    ensures r.Ok? ==> FramedBy(img, r.value) && Moved(img, r.value, found, lbaOld, diff)
    ensures r.Ok? && ShouldShift(LE32(img, at + RecLba), ordinal, lbaOld, found) ==>
      |r.value.log| > 0 && r.value.log[0] == at && r.value.ordinals[0] == ordinal
    decreases fuel, 1, limit - pos, 0
  {
    var raw := NameBytes(img, at);
    var next := pos + img[at];
    var recLba := LE32(img, at + RecLba);
    var newLba := if ShouldShift(recLba, ordinal, lbaOld, found) then Wrap32(recLba + diff) else recLba;
    var own := OwnShift(img, at, ordinal, found, lbaOld, diff);
    var updated := own.image;
    if !IsDot(raw, |raw|) && updated[at + RecFlags] == DirectoryFlag then
      match TocDir(updated, newLba, LE32(updated, at + RecSize), found, lbaOld, diff, fuel)
      case Err(f) => Err(f)
      case Ok(sub) =>
        match TocRecords(sub.image, lba, limit, i, next, found, lbaOld, diff, fuel)
        case Err(f) => Err(f)
        case Ok(rest) =>
          Chain(img, own, sub, found, lbaOld, diff);
          Chain(img, Then(own, sub), rest, found, lbaOld, diff);
          Ok(Then(Then(own, sub), rest))
    else
      match TocRecords(updated, lba, limit, i, next, found, lbaOld, diff, fuel)
      case Err(f) => Err(f)
      case Ok(rest) =>
        Chain(img, own, rest, found, lbaOld, diff);
        Ok(Then(own, rest))
  }

  /** The visit of one record: the record shifted or not, logged with its ordinal exactly
      when it passed the shift test. */
  function OwnShift(img: Image, at: nat, ordinal: nat, found: nat, lbaOld: U32, diff: int): (r: Rewritten)
    requires at + RecSize <= |img|
    ensures r.image == ShiftRecord(img, at, ordinal, found, lbaOld, diff)
    ensures r.log == (if ShouldShift(LE32(img, at + RecLba), ordinal, lbaOld, found) then [at] else [])
    ensures r.ordinals == (if ShouldShift(LE32(img, at + RecLba), ordinal, lbaOld, found) then [ordinal] else [])
    ensures FramedBy(img, r) && Moved(img, r, found, lbaOld, diff)
  {
    var updated := ShiftRecord(img, at, ordinal, found, lbaOld, diff);
    if ShouldShift(LE32(img, at + RecLba), ordinal, lbaOld, found) then
      ShiftedRecordLogged(img, updated, at, ordinal, found, lbaOld, diff);
      Rewritten(updated, [at], [ordinal])
    else Rewritten(updated, [], [])
  }

  /** A record that passed the shift test and now holds the shifted LBA, with nothing else
      changed, is framed by a log holding it alone and is moved. */
  lemma ShiftedRecordLogged(img: Image, updated: Image, at: nat, ordinal: nat, found: nat, lbaOld: U32, diff: int)
    requires at + RecSize <= |img| && |updated| == |img|
    requires ShouldShift(LE32(img, at + RecLba), ordinal, lbaOld, found)
    requires LE32(updated, at + RecLba) == Wrap32(LE32(img, at + RecLba) + diff)
    requires BE32(updated, at + RecLbaBE) == Wrap32(LE32(img, at + RecLba) + diff)
    requires SameOutside(img, updated, at + RecLba, at + RecSize)
    ensures var r := Rewritten(updated, [at], [ordinal]);
      FramedBy(img, r) && Moved(img, r, found, lbaOld, diff)
  {
    var log := [at];
    forall k | 0 <= k < |img| && OutsideAll(k, log, RecLba, RecSize)
      ensures img[k] == updated[k]
    {
      assert log[0] == at;
    }
    assert MovedRecord(img, updated, at, ordinal, found, lbaOld, diff);
  }
}
