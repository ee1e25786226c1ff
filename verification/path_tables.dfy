/** The path-table pass (UMDReplaceK/Program.cs, `PathTable` and its caller in `Replace`).

    Path-table records (section 9.4 of ECMA-119) hold a length byte at +0 and a directory
    LBA at +2; a record takes `8 + n + (n & 1)` bytes for a name of `n` bytes. The pass adds
    the sector delta to every LBA above the replaced file's LBA, reading and writing it in
    the table's byte order. Each pass returns the patched image and the positions of the
    entries it rewrote, in walk order, so that the frame can be stated. */
module PathTables {
  import opened Outcomes
  import opened ByteBuffer
  import opened Layout

  /** The entry's LBA in the table's byte order. */
  function EntryLba(img: seq<Byte>, at: int, bigEndian: bool): U32
    requires 0 <= at && at + 6 <= |img|
  {
    if bigEndian then ChangeEndian(LE32(img, at + 2)) else LE32(img, at + 2)
  }

  /** One entry: when its LBA exceeds `lbaOld` the four LBA bytes at +2 become
      `LBA + diff` (wrapping) in the table's byte order; otherwise nothing changes. */
  function ShiftEntry(img: Image, at: nat, lbaOld: U32, diff: int, bigEndian: bool): (r: Image)
    requires at + 6 <= |img|
    ensures |r| == |img|
    ensures EntryLba(img, at, bigEndian) > lbaOld ==>
      && EntryLba(r, at, bigEndian) == Wrap32(EntryLba(img, at, bigEndian) + diff)
      && (bigEndian ==> BE32(r, at + 2) == Wrap32(EntryLba(img, at, bigEndian) + diff))
      && SameOutside(img, r, at + 2, at + 6)
    ensures EntryLba(img, at, bigEndian) <= lbaOld ==> r == img
  {
    var entry := EntryLba(img, at, bigEndian);
    if entry > lbaOld then
      var shifted := Wrap32(entry + diff);
      var stored := if bigEndian then ChangeEndian(shifted) else shifted;
      var r := PutLE32(img, at + 2, stored);
      if bigEndian then
        ChangeEndianInvolution(shifted);
        BE32IsChangeEndian(r, at + 2);
        r
      else r
    else img
  }

  /** Entry position: `sectorSize * lba + pos`, all in `uint`, so reduced modulo 2^32. */
  function EntryPosition(lba: U32, pos: nat): nat
  {
    (2048 * lba + pos) % TwoTo32
  }

  /** What a pass from cursor `pos` promises about its result `r`: only the logged LBA
      windows changed, each logged entry lies in the image, and (while the table's base
      plus the cursor stays below 2^32) the pass agrees with the reference walk. */
  predicate PassResult(img: Image, r: Patched, lba: U32, len: U32, lbaOld: U32, diff: int, bigEndian: bool, pos: nat)
  {
    && SameOutsideWindows(img, r.image, r.log, 2, 6)
    && (forall j :: 0 <= j < |r.log| ==> r.log[j] + 6 <= |img|)
    && (TableBase(lba) + pos < TwoTo32 ==> MatchesEntries(img, r, lba, len, lbaOld, diff, bigEndian, pos))
  }

  /** `PathTable`: walk entries from byte 0 while `pos < len`, stopping at a position past
      the image or a zero length byte. Against the reference walk `TableEntries`: the pass
      rewrites exactly the visited entries whose LBA exceeds `lbaOld`, in walk order, and
      every visited entry ends up holding `LBA + diff` (wrapping) if it qualified and its
      old LBA otherwise. */
  function ShiftTable(img: Image, lba: U32, len: U32, lbaOld: U32, diff: int, bigEndian: bool, pos: nat)
    : (r: Result<Patched>)
    ensures r.Err? ==> r.fault == OutOfRange
    ensures r.Ok? ==> SameOutsideWindows(img, r.value.image, r.value.log, 2, 6)
    ensures r.Ok? ==> forall j :: 0 <= j < |r.value.log| ==> r.value.log[j] + 6 <= |img|
    ensures r.Ok? && TableBase(lba) + pos < TwoTo32 ==> MatchesEntries(img, r.value, lba, len, lbaOld, diff, bigEndian, pos)
    decreases len - pos, 1
  {
    if pos >= len then Ok(Patched(img, []))
    else
      var at := EntryPosition(lba, pos);
      if at >= |img| || img[at] == 0 then Ok(Patched(img, []))
      else if at + 6 > |img| then Err(OutOfRange)
      else ShiftFrom(img, lba, len, lbaOld, diff, bigEndian, pos, at)
  }

  /** One step of the pass at the entry `at` the cursor `pos` points to: shift it when it
      qualifies, then go on `8 + n + (n & 1)` bytes further in the image as shifted. */
  function ShiftFrom(img: Image, lba: U32, len: U32, lbaOld: U32, diff: int, bigEndian: bool, pos: nat, at: nat)
    : (r: Result<Patched>)
    requires pos < len && at == EntryPosition(lba, pos)
    requires at < |img| && img[at] != 0 && at + 6 <= |img|
    ensures r.Err? ==> r.fault == OutOfRange
    ensures r.Ok? ==> PassResult(img, r.value, lba, len, lbaOld, diff, bigEndian, pos)
    decreases len - pos, 0
  {
    var next := pos + 8 + img[at] + img[at] % 2;
    var shifted := ShiftEntry(img, at, lbaOld, diff, bigEndian);
    match ShiftTable(shifted, lba, len, lbaOld, diff, bigEndian, next)
    case Err(f) => Err(f)
    case Ok(rest) =>
      ShiftStep(img, lba, len, lbaOld, diff, bigEndian, pos, at, next, shifted, rest);
      Ok(Patched(rest.image, (if EntryLba(img, at, bigEndian) > lbaOld then [at] else []) + rest.log))
  }

  /** Everything `ShiftFrom` promises, from what `ShiftTable` promises about the rest of the
      pass over the shifted image. */
  lemma ShiftStep(img: Image, lba: U32, len: U32, lbaOld: U32, diff: int, bigEndian: bool, pos: nat, at: nat,
                  next: nat, shifted: Image, rest: Patched)
    requires pos < len && at == EntryPosition(lba, pos)
    requires at < |img| && img[at] != 0 && at + 6 <= |img|
    requires next == pos + 8 + img[at] + img[at] % 2
    requires shifted == ShiftEntry(img, at, lbaOld, diff, bigEndian)
    requires PassResult(shifted, rest, lba, len, lbaOld, diff, bigEndian, next)
    ensures PassResult(img, Patched(rest.image, (if EntryLba(img, at, bigEndian) > lbaOld then [at] else []) + rest.log),
                       lba, len, lbaOld, diff, bigEndian, pos)
  {
    var log := if EntryLba(img, at, bigEndian) > lbaOld then [at] else [];
    EntryFrame(img, lbaOld, diff, bigEndian, at);
    SameOutsideWindowsTrans(img, shifted, rest.image, log, rest.log, 2, 6);
    if TableBase(lba) + pos < TwoTo32 {
      TableEntriesCons(img, lba, len, pos, at, next);
      ShiftStepMatchesEntries(img, lba, len, lbaOld, diff, bigEndian, pos, at, next, shifted, rest);
    }
  }

  /** The shift of one entry is framed by a log holding that entry when it qualified and
      nothing otherwise. */
  lemma EntryFrame(img: Image, lbaOld: U32, diff: int, bigEndian: bool, at: nat)
    requires at + 6 <= |img|
    ensures SameOutsideWindows(img, ShiftEntry(img, at, lbaOld, diff, bigEndian),
                               if EntryLba(img, at, bigEndian) > lbaOld then [at] else [], 2, 6)
  {
    var shifted := ShiftEntry(img, at, lbaOld, diff, bigEndian);
    var log := if EntryLba(img, at, bigEndian) > lbaOld then [at] else [];
    if log != [] {
      forall k | 0 <= k < |img| && OutsideAll(k, log, 2, 6)
        ensures img[k] == shifted[k]
      {
        assert log[0] == at;
      }
    }
  }

  /** The pass's result `r` from cursor `pos` agrees with the reference walk: its log is
      the qualifying visited entries, and every visited entry holds its shifted LBA. */
  predicate MatchesEntries(img: Image, r: Patched, lba: U32, len: U32, lbaOld: U32, diff: int, bigEndian: bool, pos: nat)
  {
    var e := TableEntries(img, lba, len, pos);
    && |r.image| == |img|
    && r.log == Qualifying(img, e, lbaOld, bigEndian)
    && forall j :: 0 <= j < |e| ==> EntryLba(r.image, e[j], bigEndian) == ShiftedLba(EntryLba(img, e[j], bigEndian), lbaOld, diff)
  }

  /** The table's base position `sectorSize * lba`, reduced modulo 2^32. */
  function TableBase(lba: U32): nat
  {
    (2048 * lba) % TwoTo32
  }

  /** While the cursor has not carried the position past 2^32, the entry position is the
      base plus the cursor. */
  lemma EntryPositionNoWrap(lba: U32, pos: nat)
    requires TableBase(lba) + pos < TwoTo32
    ensures EntryPosition(lba, pos) == TableBase(lba) + pos
  {
    var q := (2048 * lba) / TwoTo32;
    assert 2048 * lba + pos == q * TwoTo32 + (TableBase(lba) + pos);
  }

  /** The positions of the entries the walk visits, read off the image it starts from: the
      same stride `8 + n + (n & 1)` and the same stop tests as `ShiftTable`, with no write. */
  function TableEntries(img: seq<Byte>, lba: U32, len: U32, pos: nat): (e: seq<nat>)
    ensures forall j :: 0 <= j < |e| ==> e[j] + 6 <= |img|
    decreases len - pos
  {
    if pos >= len then []
    else
      var at := EntryPosition(lba, pos);
      if at >= |img| || img[at] == 0 || at + 6 > |img| then []
      else [at] + TableEntries(img, lba, len, pos + 8 + img[at] + img[at] % 2)
  }

  /** The entries of `e` whose LBA, in the table's byte order, exceeds `lbaOld`, in order. */
  function Qualifying(img: seq<Byte>, e: seq<nat>, lbaOld: U32, bigEndian: bool): (q: seq<nat>)
    requires forall j :: 0 <= j < |e| ==> e[j] + 6 <= |img|
    ensures |q| <= |e|
  {
    if e == [] then []
    else (if EntryLba(img, e[0], bigEndian) > lbaOld then [e[0]] else []) + Qualifying(img, e[1..], lbaOld, bigEndian)
  }

  /** The LBA an entry should carry after the pass. */
  function ShiftedLba(v: U32, lbaOld: U32, diff: int): U32
  {
    if v > lbaOld then Wrap32(v + diff) else v
  }

  /** The selected entries are entries: a bound on all of `e` bounds the selection. */
  lemma {:induction false} QualifyingAbove(img: seq<Byte>, e: seq<nat>, m: int, lbaOld: U32, bigEndian: bool)
    requires forall j :: 0 <= j < |e| ==> m <= e[j] && e[j] + 6 <= |img|
    ensures forall j :: 0 <= j < |Qualifying(img, e, lbaOld, bigEndian)| ==> m <= Qualifying(img, e, lbaOld, bigEndian)[j]
    decreases |e|
  {
    if e != [] {
      QualifyingAbove(img, e[1..], m, lbaOld, bigEndian);
    }
  }

  /** Every visited entry lies at or after the cursor's position. */
  lemma {:induction false} TableEntriesAbove(img: seq<Byte>, lba: U32, len: U32, pos: nat)
    requires TableBase(lba) + pos < TwoTo32
    requires |img| < TwoTo31
    ensures forall j :: 0 <= j < |TableEntries(img, lba, len, pos)| ==> TableEntries(img, lba, len, pos)[j] >= TableBase(lba) + pos
    decreases len - pos
  {
    if pos < len {
      EntryPositionNoWrap(lba, pos);
      var at := EntryPosition(lba, pos);
      if !(at >= |img| || img[at] == 0 || at + 6 > |img|) {
        TableEntriesAbove(img, lba, len, pos + 8 + img[at] + img[at] % 2);
      }
    }
  }

  /** The walk reads only length bytes at or after the cursor's position, so two images
      that agree from there on give the same entries. */
  lemma {:induction false} TableEntriesFrame(a: seq<Byte>, b: seq<Byte>, lba: U32, len: U32, pos: nat, m: int)
    requires |a| == |b| < TwoTo31
    requires TableBase(lba) + pos < TwoTo32
    requires m <= TableBase(lba) + pos
    requires forall k :: 0 <= k < |a| && m <= k ==> a[k] == b[k]
    ensures TableEntries(a, lba, len, pos) == TableEntries(b, lba, len, pos)
    decreases len - pos
  {
    if pos < len {
      EntryPositionNoWrap(lba, pos);
      var at := EntryPosition(lba, pos);
      if !(at >= |a| || a[at] == 0 || at + 6 > |a|) {
        TableEntriesFrame(a, b, lba, len, pos + 8 + a[at] + a[at] % 2, m);
      }
    }
  }

  /** Two images that agree from `m` on select the same entries among entries at or after `m`. */
  lemma {:induction false} QualifyingFrame(a: seq<Byte>, b: seq<Byte>, e: seq<nat>, m: int, lbaOld: U32, bigEndian: bool)
    requires |a| == |b|
    requires forall j :: 0 <= j < |e| ==> m <= e[j] && e[j] + 6 <= |a|
    requires forall k :: 0 <= k < |a| && m <= k ==> a[k] == b[k]
    ensures Qualifying(a, e, lbaOld, bigEndian) == Qualifying(b, e, lbaOld, bigEndian)
    decreases |e|
  {
    if e != [] {
      assert e == [e[0]] + e[1..];
      FieldFrame(a, b, e[0] + 2);
      QualifyingFrame(a, b, e[1..], m, lbaOld, bigEndian);
      QualifyingCons(a, e[0], e[1..], lbaOld, bigEndian);
      QualifyingCons(b, e[0], e[1..], lbaOld, bigEndian);
    }
  }

  /** Selecting from `[at] + tail` is selecting `at` or not, then selecting from `tail`. */
  lemma QualifyingCons(img: seq<Byte>, at: nat, tail: seq<nat>, lbaOld: U32, bigEndian: bool)
    requires at + 6 <= |img|
    requires forall j :: 0 <= j < |tail| ==> tail[j] + 6 <= |img|
    ensures Qualifying(img, [at] + tail, lbaOld, bigEndian)
         == (if EntryLba(img, at, bigEndian) > lbaOld then [at] else []) + Qualifying(img, tail, lbaOld, bigEndian)
  {
    assert ([at] + tail)[1..] == tail;
  }

  /** The entry shifted at `at` keeps its new LBA when the later writes all land in
      windows at least 8 bytes further on. */
  lemma LaterWritesKeepEntry(img: Image, at: nat, out: seq<Byte>, restLog: seq<nat>, lbaOld: U32, diff: int, bigEndian: bool)
    requires at + 6 <= |img|
    requires forall j :: 0 <= j < |restLog| ==> at + 8 <= restLog[j]
    requires SameOutsideWindows(ShiftEntry(img, at, lbaOld, diff, bigEndian), out, restLog, 2, 6)
    ensures EntryLba(out, at, bigEndian) == ShiftedLba(EntryLba(img, at, bigEndian), lbaOld, diff)
  {
    var shifted := ShiftEntry(img, at, lbaOld, diff, bigEndian);
    forall k | at + 2 <= k < at + 6
      ensures shifted[k] == out[k]
    {
      assert OutsideAll(k, restLog, 2, 6);
    }
    FieldFrame(shifted, out, at + 2);
  }

  /** Shifting the entry at `at` leaves the LBA of an entry 8 or more bytes further on. */
  lemma ShiftLeavesLaterEntry(img: Image, at: nat, x: nat, lbaOld: U32, diff: int, bigEndian: bool)
    requires at + 6 <= |img| && at + 8 <= x && x + 6 <= |img|
    ensures EntryLba(ShiftEntry(img, at, lbaOld, diff, bigEndian), x, bigEndian) == EntryLba(img, x, bigEndian)
  {
    ShiftKeepsAbove(img, at, lbaOld, diff, bigEndian);
    FieldFrame(img, ShiftEntry(img, at, lbaOld, diff, bigEndian), x + 2);
  }

  /** The inductive step of `ShiftTable`'s agreement with `TableEntries`, stated over the
      images alone: if
      the rest of the pass matches the entries after `at` in the shifted image, the whole
      pass matches `[at]` followed by those entries in the original. */
  lemma ShiftStepMatches(img: Image, at: nat, tail: seq<nat>, out: seq<Byte>, restLog: seq<nat>,
                         lbaOld: U32, diff: int, bigEndian: bool)
    requires at + 6 <= |img|
    requires forall j :: 0 <= j < |tail| ==> at + 8 <= tail[j] && tail[j] + 6 <= |img|
    requires restLog == Qualifying(img, tail, lbaOld, bigEndian)
    requires SameOutsideWindows(ShiftEntry(img, at, lbaOld, diff, bigEndian), out, restLog, 2, 6)
    requires forall j :: 0 <= j < |tail| ==>
      EntryLba(out, tail[j], bigEndian) == ShiftedLba(EntryLba(ShiftEntry(img, at, lbaOld, diff, bigEndian), tail[j], bigEndian), lbaOld, diff)
    ensures (if EntryLba(img, at, bigEndian) > lbaOld then [at] else []) + restLog == Qualifying(img, [at] + tail, lbaOld, bigEndian)
    ensures forall j :: 0 <= j < |[at] + tail| ==>
      EntryLba(out, ([at] + tail)[j], bigEndian) == ShiftedLba(EntryLba(img, ([at] + tail)[j], bigEndian), lbaOld, diff)
  {
    QualifyingCons(img, at, tail, lbaOld, bigEndian);
    QualifyingAbove(img, tail, at + 8, lbaOld, bigEndian);
    LaterWritesKeepEntry(img, at, out, restLog, lbaOld, diff, bigEndian);
    forall j | 1 <= j < |[at] + tail|
      ensures EntryLba(out, ([at] + tail)[j], bigEndian) == ShiftedLba(EntryLba(img, ([at] + tail)[j], bigEndian), lbaOld, diff)
    {
      assert ([at] + tail)[j] == tail[j - 1];
      ShiftLeavesLaterEntry(img, at, tail[j - 1], lbaOld, diff, bigEndian);
    }
  }

  /** The inductive step of `ShiftTable`'s agreement with `TableEntries`: if the pass from
      the next entry agrees with the walk over the shifted image, the pass from `pos`
      agrees with the walk over the original. */
  lemma ShiftStepMatchesEntries(img: Image, lba: U32, len: U32, lbaOld: U32, diff: int, bigEndian: bool, pos: nat, at: nat,
                                next: nat, shifted: Image, rest: Patched)
    requires pos < len && at == EntryPosition(lba, pos)
    requires at < |img| && img[at] != 0 && at + 6 <= |img|
    requires TableBase(lba) + pos < TwoTo32
    requires next == pos + 8 + img[at] + img[at] % 2
    requires shifted == ShiftEntry(img, at, lbaOld, diff, bigEndian)
    requires SameOutsideWindows(shifted, rest.image, rest.log, 2, 6)
    requires MatchesEntries(shifted, rest, lba, len, lbaOld, diff, bigEndian, next)
    ensures MatchesEntries(img, Patched(rest.image, (if EntryLba(img, at, bigEndian) > lbaOld then [at] else []) + rest.log),
                           lba, len, lbaOld, diff, bigEndian, pos)
  {
    var tail := TableEntries(img, lba, len, next);
    StepTail(img, lba, len, lbaOld, diff, bigEndian, pos, at, next, shifted, tail);
    UnpackMatches(shifted, rest, lba, len, lbaOld, diff, bigEndian, next, tail);
    ShiftStepMatches(img, at, tail, rest.image, rest.log, lbaOld, diff, bigEndian);
    PackMatches(img, rest.image, (if EntryLba(img, at, bigEndian) > lbaOld then [at] else []) + rest.log,
                lba, len, lbaOld, diff, bigEndian, pos, [at] + tail);
  }

  /** The walk from an accepted entry `at`: `at`, then the walk from the next entry, which
      lies wholly after `at`'s fields and is the same in the image with `at` shifted, as is
      the selection from it. */
  lemma StepTail(img: Image, lba: U32, len: U32, lbaOld: U32, diff: int, bigEndian: bool, pos: nat, at: nat,
                  next: nat, shifted: Image, tail: seq<nat>)
    requires pos < len && at == EntryPosition(lba, pos)
    requires at < |img| && img[at] != 0 && at + 6 <= |img|
    requires TableBase(lba) + pos < TwoTo32
    requires next == pos + 8 + img[at] + img[at] % 2
    requires shifted == ShiftEntry(img, at, lbaOld, diff, bigEndian)
    requires tail == TableEntries(img, lba, len, next)
    ensures TableEntries(img, lba, len, pos) == [at] + tail
    ensures forall j :: 0 <= j < |tail| ==> at + 8 <= tail[j]
    ensures TableEntries(shifted, lba, len, next) == tail
    ensures Qualifying(shifted, tail, lbaOld, bigEndian) == Qualifying(img, tail, lbaOld, bigEndian)
  {
    TableEntriesCons(img, lba, len, pos, at, next);
    TableEntriesAbove(img, lba, len, next);
    ShiftKeepsAbove(img, at, lbaOld, diff, bigEndian);
    TableEntriesFrame(img, shifted, lba, len, next, at + 6);
    QualifyingFrame(img, shifted, tail, at + 6, lbaOld, bigEndian);
  }

  /** What `MatchesEntries` says, for a walk known to be `e`. */
  lemma UnpackMatches(img: Image, r: Patched, lba: U32, len: U32, lbaOld: U32, diff: int, bigEndian: bool, pos: nat,
                      e: seq<nat>)
    requires MatchesEntries(img, r, lba, len, lbaOld, diff, bigEndian, pos)
    requires e == TableEntries(img, lba, len, pos)
    ensures |r.image| == |img| && r.log == Qualifying(img, e, lbaOld, bigEndian)
    ensures forall j :: 0 <= j < |e| ==> EntryLba(r.image, e[j], bigEndian) == ShiftedLba(EntryLba(img, e[j], bigEndian), lbaOld, diff)
  {
  }

  /** `MatchesEntries` from its parts, for a walk known to be `e`. */
  lemma PackMatches(img: Image, out: Image, log: seq<nat>, lba: U32, len: U32, lbaOld: U32, diff: int, bigEndian: bool,
                    pos: nat, e: seq<nat>)
    requires e == TableEntries(img, lba, len, pos)
    requires |out| == |img| && log == Qualifying(img, e, lbaOld, bigEndian)
    requires forall j :: 0 <= j < |e| ==> EntryLba(out, e[j], bigEndian) == ShiftedLba(EntryLba(img, e[j], bigEndian), lbaOld, diff)
    ensures MatchesEntries(img, Patched(out, log), lba, len, lbaOld, diff, bigEndian, pos)
  {
  }

  /** An entry the walk accepts at `pos` heads the walk from `pos`; the rest is the walk from
      the next entry. */
  lemma TableEntriesCons(img: Image, lba: U32, len: U32, pos: nat, at: nat, next: nat)
    requires pos < len && at == EntryPosition(lba, pos)
    requires at < |img| && img[at] != 0 && at + 6 <= |img|
    requires TableBase(lba) + pos < TwoTo32
    requires next == pos + 8 + img[at] + img[at] % 2
    ensures TableEntries(img, lba, len, pos) == [at] + TableEntries(img, lba, len, next)
    ensures at == TableBase(lba) + pos
    ensures TableBase(lba) + next < TwoTo32
  {
    EntryPositionNoWrap(lba, pos);
    assert img[at] % 2 <= 1;
  }

  /** Shifting the entry at `at` leaves every byte from `at + 6` on as it was. */
  lemma ShiftKeepsAbove(img: Image, at: nat, lbaOld: U32, diff: int, bigEndian: bool)
    requires at + 6 <= |img|
    ensures forall k :: 0 <= k < |img| && at + 6 <= k ==> img[k] == ShiftEntry(img, at, lbaOld, diff, bigEndian)[k]
  {
  }

  /** Only pointer slot 2 is treated as big-endian (slot 3 is read little-endian as written). */
  function SlotIsBigEndian(k: nat): bool
  {
    k == 2
  }

  /** The image after the path-table passes, the positions of the entries they rewrote in
      the order they rewrote them, and the byte order of each entry's table. */
  datatype TablesPatched = TablesPatched(image: Image, log: seq<nat>, orders: seq<bool>)

  /** Entry `q` passed the test on `before` and holds its shifted LBA on `after`, both read
      in byte order `bigEndian`. */
  predicate EntryMoved(before: seq<Byte>, after: seq<Byte>, q: nat, bigEndian: bool, lbaOld: U32, diff: int)
  {
    && q + 6 <= |before| && |after| == |before|
    && EntryLba(before, q, bigEndian) > lbaOld
    && EntryLba(after, q, bigEndian) == Wrap32(EntryLba(before, q, bigEndian) + diff)
  }

  /** No two logged entries share an LBA byte. */
  predicate EntriesApart(log: seq<nat>)
  {
    forall a, b :: 0 <= a < b < |log| ==> log[a] + 4 <= log[b] || log[b] + 4 <= log[a]
  }

  /** What the log of the passes means: when no two logged entries overlap, every logged
      entry passed the test on the image the passes started from and ends holding its old
      LBA plus the delta, in its table's byte order. */
  predicate TablesMoved(img: Image, r: TablesPatched, lbaOld: U32, diff: int)
  {
    |r.orders| == |r.log| &&
    (EntriesApart(r.log) ==>
      forall j :: 0 <= j < |r.log| ==> EntryMoved(img, r.image, r.log[j], r.orders[j], lbaOld, diff))
  }

  /** The selection keeps entries of `e` that pass the test. */
  lemma {:induction false} QualifyingSelects(img: seq<Byte>, e: seq<nat>, lbaOld: U32, bigEndian: bool, j: nat)
    returns (m: nat)
    requires forall i :: 0 <= i < |e| ==> e[i] + 6 <= |img|
    requires j < |Qualifying(img, e, lbaOld, bigEndian)|
    ensures m < |e| && e[m] == Qualifying(img, e, lbaOld, bigEndian)[j]
    ensures EntryLba(img, e[m], bigEndian) > lbaOld
    decreases |e|
  {
    var head := if EntryLba(img, e[0], bigEndian) > lbaOld then [e[0]] else [];
    assert Qualifying(img, e, lbaOld, bigEndian) == head + Qualifying(img, e[1..], lbaOld, bigEndian);
    if j < |head| {
      m := 0;
    } else {
      var m' := QualifyingSelects(img, e[1..], lbaOld, bigEndian, j - |head|);
      m := m' + 1;
    }
  }

  /** A pass that matches the reference walk moved every entry it logged. */
  lemma TablePassMoves(img: Image, r: Patched, lba: U32, len: U32, lbaOld: U32, diff: int, bigEndian: bool)
    requires MatchesEntries(img, r, lba, len, lbaOld, diff, bigEndian, 0)
    ensures forall j :: 0 <= j < |r.log| ==> EntryMoved(img, r.image, r.log[j], bigEndian, lbaOld, diff)
  {
    SelectedMoved(img, r.image, TableEntries(img, lba, len, 0), r.log, lbaOld, diff, bigEndian);
  }

  /** Every selected entry of `e` passed the test, so where `out` holds the shifted LBA of
      every entry of `e` it holds the moved LBA of every selected one. */
  lemma SelectedMoved(img: Image, out: Image, e: seq<nat>, log: seq<nat>, lbaOld: U32, diff: int, bigEndian: bool)
    requires forall i :: 0 <= i < |e| ==> e[i] + 6 <= |img|
    requires |out| == |img| && log == Qualifying(img, e, lbaOld, bigEndian)
    requires forall i :: 0 <= i < |e| ==> EntryLba(out, e[i], bigEndian) == ShiftedLba(EntryLba(img, e[i], bigEndian), lbaOld, diff)
    ensures forall j :: 0 <= j < |log| ==> EntryMoved(img, out, log[j], bigEndian, lbaOld, diff)
  {
    forall j | 0 <= j < |log|
      ensures EntryMoved(img, out, log[j], bigEndian, lbaOld, diff)
    {
      var m := QualifyingSelects(img, e, lbaOld, bigEndian, j);
    }
  }

  /** Writes confined to windows four bytes clear of entry `q` leave its LBA as it was. */
  lemma EntryKept(x: seq<Byte>, y: seq<Byte>, log: seq<nat>, q: nat, bigEndian: bool)
    requires SameOutsideWindows(x, y, log, 2, 6)
    requires q + 6 <= |x|
    requires forall j :: 0 <= j < |log| ==> q + 4 <= log[j] || log[j] + 4 <= q
    ensures EntryLba(x, q, bigEndian) == EntryLba(y, q, bigEndian)
  {
    forall k | q + 2 <= k < q + 6
      ensures x[k] == y[k]
    {
      assert OutsideAll(k, log, 2, 6);
    }
    FieldFrame(x, y, q + 2);
  }

  /** Apart entries of a joined log are apart within the second part and across the parts. */
  lemma EntriesApartSplit(x: seq<nat>, y: seq<nat>)
    requires EntriesApart(x + y)
    ensures EntriesApart(y)
    ensures forall a, b :: 0 <= a < |x| && 0 <= b < |y| ==> x[a] + 4 <= y[b] || y[b] + 4 <= x[a]
  {
    var xy := x + y;
    forall a, b | 0 <= a < b < |y|
      ensures y[a] + 4 <= y[b] || y[b] + 4 <= y[a]
    {
      assert y[a] == xy[|x| + a] && y[b] == xy[|x| + b];
    }
    forall a, b | 0 <= a < |x| && 0 <= b < |y|
      ensures x[a] + 4 <= y[b] || y[b] + 4 <= x[a]
    {
      assert x[a] == xy[a] && y[b] == xy[|x| + b];
    }
  }

  /** A moved entry stays moved through later writes four bytes clear of it. */
  lemma EarlierEntrySurvives(img: Image, mid: Image, out: Image, later: seq<nat>, q: nat, bigEndian: bool, lbaOld: U32, diff: int)
    requires EntryMoved(img, mid, q, bigEndian, lbaOld, diff)
    requires SameOutsideWindows(mid, out, later, 2, 6)
    requires forall j :: 0 <= j < |later| ==> q + 4 <= later[j] || later[j] + 4 <= q
    ensures EntryMoved(img, out, q, bigEndian, lbaOld, diff)
  {
    EntryKept(mid, out, later, q, bigEndian);
  }

  /** An entry moved by a later pass read the original LBA when the earlier writes are four
      bytes clear of it. */
  lemma LaterEntryReadsOriginal(img: Image, mid: Image, out: Image, earlier: seq<nat>, t: nat, bigEndian: bool, lbaOld: U32, diff: int)
    requires EntryMoved(mid, out, t, bigEndian, lbaOld, diff)
    requires SameOutsideWindows(img, mid, earlier, 2, 6)
    requires forall j :: 0 <= j < |earlier| ==> t + 4 <= earlier[j] || earlier[j] + 4 <= t
    ensures EntryMoved(img, out, t, bigEndian, lbaOld, diff)
  {
    EntryKept(img, mid, earlier, t, bigEndian);
  }

  /** One table's pass followed by the passes of the later slots: entries of the first
      survive the later writes, and entries of the later passes read what the first pass
      left, which is the original wherever the windows are apart. */
  lemma TablesJoin(img: Image, here: Patched, bigEndian: bool, rest: TablesPatched, lbaOld: U32, diff: int)
    requires SameOutsideWindows(img, here.image, here.log, 2, 6)
    requires forall j :: 0 <= j < |here.log| ==> EntryMoved(img, here.image, here.log[j], bigEndian, lbaOld, diff)
    requires SameOutsideWindows(here.image, rest.image, rest.log, 2, 6)
    requires TablesMoved(here.image, rest, lbaOld, diff)
    ensures TablesMoved(img, TablesPatched(rest.image, here.log + rest.log, seq(|here.log|, _ => bigEndian) + rest.orders), lbaOld, diff)
  {
    var n := |here.log|;
    var log := here.log + rest.log;
    var orders := seq(n, _ => bigEndian) + rest.orders;
    if EntriesApart(log) {
      EntriesApartSplit(here.log, rest.log);
      forall j | 0 <= j < |log|
        ensures EntryMoved(img, rest.image, log[j], orders[j], lbaOld, diff)
      {
        if j < n {
          EarlierEntrySurvives(img, here.image, rest.image, rest.log, here.log[j], bigEndian, lbaOld, diff);
        } else {
          var b := j - n;
          assert log[j] == rest.log[b] && orders[j] == rest.orders[b];
          LaterEntryReadsOriginal(img, here.image, rest.image, here.log, rest.log[b], rest.orders[b], lbaOld, diff);
        }
      }
    }
  }

  /** The LBA of the table slot `k` points at, read in the slot's byte order. */
  function SlotTableLba(img: seq<Byte>, k: nat): U32
    requires k < 4 && TablePathLbaField(k) + 4 <= |img|
  {
    var pointer := LE32(img, TablePathLbaField(k));
    if SlotIsBigEndian(k) then ChangeEndian(pointer) else pointer
  }

  /** The four pointer slots of the descriptor, from slot `k` on. Each iteration re-reads
      the table length (offset 132) and the slot's pointer (offset 140 + 4k) from the current
      image; a zero pointer skips the slot. */
  function ShiftTables(img: Image, k: nat, lbaOld: U32, diff: int): (r: Result<TablesPatched>)
    requires k <= 4
    ensures r.Err? ==> r.fault == OutOfRange
    ensures r.Ok? ==> SameOutsideWindows(img, r.value.image, r.value.log, 2, 6)
    ensures r.Ok? ==> forall j :: 0 <= j < |r.value.log| ==> r.value.log[j] + 6 <= |img|
    ensures r.Ok? ==> TablesMoved(img, r.value, lbaOld, diff)
    ensures r.Ok? && k < 4 && TablePathLbaField(k) + 4 <= |img| && LE32(img, TablePathLbaField(k)) != 0 ==>
      var first := ShiftTable(img, SlotTableLba(img, k), LE32(img, TablePathLenField), lbaOld, diff, SlotIsBigEndian(k), 0);
      first.Ok? && first.value.log <= r.value.log
    decreases 4 - k
  {
    if k == 4 then Ok(TablesPatched(img, [], []))
    else
      var tableLen :- ReadLE32(img, TablePathLenField);
      var pointer :- ReadLE32(img, TablePathLbaField(k));
      if pointer == 0 then ShiftTables(img, k + 1, lbaOld, diff)
      else
        var tableLba := if SlotIsBigEndian(k) then ChangeEndian(pointer) else pointer;
        match ShiftTable(img, tableLba, tableLen, lbaOld, diff, SlotIsBigEndian(k), 0)
        case Err(f) => Err(f)
        case Ok(here) =>
          match ShiftTables(here.image, k + 1, lbaOld, diff)
          case Err(f) => Err(f)
          case Ok(rest) =>
            PassesCompose(img, here, Patched(rest.image, rest.log));
            TablePassMoves(img, here, tableLba, tableLen, lbaOld, diff, SlotIsBigEndian(k));
            TablesJoin(img, here, SlotIsBigEndian(k), rest, lbaOld, diff);
            Ok(TablesPatched(rest.image, here.log + rest.log, seq(|here.log|, _ => SlotIsBigEndian(k)) + rest.orders))
  }

  /** Two consecutive passes change only the windows of their joined logs, all of which lie
      in the image. */
  lemma PassesCompose(img: Image, here: Patched, rest: Patched)
    requires SameOutsideWindows(img, here.image, here.log, 2, 6)
    requires forall j :: 0 <= j < |here.log| ==> here.log[j] + 6 <= |img|
    requires SameOutsideWindows(here.image, rest.image, rest.log, 2, 6)
    requires forall j :: 0 <= j < |rest.log| ==> rest.log[j] + 6 <= |here.image|
    ensures SameOutsideWindows(img, rest.image, here.log + rest.log, 2, 6)
    ensures forall j :: 0 <= j < |here.log + rest.log| ==> (here.log + rest.log)[j] + 6 <= |img|
  {
    SameOutsideWindowsTrans(img, here.image, rest.image, here.log, rest.log, 2, 6);
  }

  /** Slots whose pointer is 0 are skipped: a descriptor with no path-table pointer from
      slot `k` on leaves the image as it is and rewrites nothing. */
  lemma {:induction false} EmptySlotsChangeNothing(img: Image, k: nat, lbaOld: U32, diff: int)
    requires k <= 4
    requires TablePathLbaField(3) + 4 <= |img|
    requires forall j :: k <= j < 4 ==> LE32(img, TablePathLbaField(j)) == 0
    ensures ShiftTables(img, k, lbaOld, diff) == Ok(TablesPatched(img, [], []))
    decreases 4 - k
  {
    if k < 4 {
      EmptySlotsChangeNothing(img, k + 1, lbaOld, diff);
    }
  }
}
