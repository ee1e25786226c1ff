/** One replacement (UMDReplaceK/Program.cs, `Replace`): read the descriptor, normalise and
    search the path, compute the sector counts and the signed delta, splice, patch the size
    fields, and, when the delta is not zero, patch the descriptor's sector total, the path
    tables and the directory records.

    The replacement payload is a parameter (the program reads it from a file), and the
    program's exit on "not found" becomes `Err(NotFound)`. */
module Replacement {
  import opened Outcomes
  import opened ByteBuffer
  import opened Names
  import opened Sectors
  import opened Layout
  import opened DirectorySearch
  import opened PathTables
  import opened TocUpdate

  /** Everything `Replace` reads before it writes. All positions are in the image as it was
      before the splice. */
  datatype Plan = Plan(
    imageSectors: U32,  // descriptor total, offset 80
    rootLba: U32,       // root directory extent, offset 158
    rootLength: U32,    // root directory length, offset 166
    found: nat,         // byte position of the file's directory record
    oldSize: U32,       // record's size field, +10
    fileLba: U32,       // record's LBA field, +2
    newSize: U32,       // payload length
    oldSectors: U32,
    newSectors: U32,
    diff: int)          // signed sector delta

  /** `newFileSectors - oldFileSectors` in `uint`, reinterpreted as `int`. */
  function SectorDelta(newSectors: U32, oldSectors: U32): (r: int)
    ensures -TwoTo31 <= r < TwoTo31 && (r - (newSectors - oldSectors)) % TwoTo32 == 0
  {
    ToInt32(Wrap32(newSectors - oldSectors))
  }

  /** Sector counts stay below 2^21, so the reinterpreted difference is the true difference. */
  lemma SectorDeltaExact(newSectors: U32, oldSectors: U32)
    requires newSectors < 0x20_0000 && oldSectors < 0x20_0000
    ensures SectorDelta(newSectors, oldSectors) == newSectors - oldSectors
  {
    var d := newSectors - oldSectors;
    if d < 0 {
      assert Wrap32(d) == d + TwoTo32;
    } else {
      assert Wrap32(d) == d;
    }
  }

  /** The read phase of `Replace`: the descriptor fields, the path lookup and the old record. */
  function Locate(img: Image, name: string, payload: Image, fuel: nat): (r: Result<Plan>)
    ensures |name| == 0 ==> r.Err?
    ensures r.Err? ==> r.fault != TooLarge
    ensures (&& RootSizeField + 4 <= |img| && Normalize(name).Ok?
             && Search(img, Normalize(name).value, LE32(img, RootLbaField), LE32(img, RootSizeField), fuel) == Ok(0))
            ==> r == Err(NotFound)
    ensures r.Ok? ==>
      var p := r.value;
      && TotalSectorsField + 4 <= |img| && RootSizeField + 4 <= |img|
      && p.imageSectors == LE32(img, TotalSectorsField)
      && p.rootLba == LE32(img, RootLbaField)
      && p.rootLength == LE32(img, RootSizeField)
      && p.found != 0 && FileRecordAt(img, p.found)
      && Found(img, Normalize(name).value, p.rootLba, p.rootLength, p.found)
      && EndsWithName(Normalize(name).value, DecodeName(NameBytes(img, p.found)))
      && p.oldSize == LE32(img, p.found + RecSize)
      && p.fileLba == LE32(img, p.found + RecLba)
      && p.newSize == |payload|
      && p.newSize <= p.newSectors * SectorSize < p.newSize + SectorSize
      && (p.oldSize <= TwoTo32 - SectorSize ==> p.oldSize <= p.oldSectors * SectorSize < p.oldSize + SectorSize)
      && (p.oldSize > TwoTo32 - SectorSize ==> p.oldSectors == 0)
      && p.diff == p.newSectors - p.oldSectors
      && CountsConsistent(p, payload)
  {
    var imageSectors :- ReadLE32(img, TotalSectorsField);
    var rootLba :- ReadLE32(img, RootLbaField);
    var rootLength :- ReadLE32(img, RootSizeField);
    var newSize: U32 := |payload|;
    var newSectors := CeilSectors(newSize);
    var target :- Normalize(name);
    var found :- Search(img, target, rootLba, rootLength, fuel);
    if found == 0 then Err(NotFound)
    else
      // The record lies inside the image, so these two slices cannot throw.
      var oldSize := LE32(img, found + RecSize);
      var oldSectors := CeilSectors(oldSize);
      var fileLba := LE32(img, found + RecLba);
      SectorDeltaExact(newSectors, oldSectors);
      Ok(Plan(imageSectors, rootLba, rootLength, found, oldSize, fileLba, newSize,
              oldSectors, newSectors, SectorDelta(newSectors, oldSectors)))
  }

  /** The splice runs only when the payload has at least one sector; an empty payload
      leaves the old sectors in place. */
  function Splice(img: Image, plan: Plan, payload: Image): (r: Result<Image>)
    ensures plan.newSectors == 0 ==> r == Ok(img)
  {
    if plan.newSectors != 0 then
      ExchangeSectors(img, ToInt32(plan.fileLba), ToInt32(plan.oldSectors), payload)
    else Ok(img)
  }

  predicate InSizeField(k: int, plan: Plan)
  {
    plan.newSize != plan.oldSize && plan.found + RecSize <= k < plan.found + RecSize + 8
  }

  predicate InTotalField(k: int, plan: Plan)
  {
    plan.diff != 0 && TotalSectorsField <= k < TotalSectorsField + 8
  }

  /** `out` differs from `spliced` only in the size field (when the size changed), the
      descriptor total (when the delta is not zero), the rewritten path-table LBAs and the
      rewritten directory-record LBAs. */
  predicate OnlyPatched(spliced: seq<Byte>, out: seq<Byte>, plan: Plan, tableLog: seq<nat>, tocLog: seq<nat>)
  {
    && |out| == |spliced|
    && forall k :: (0 <= k < |spliced| && !InSizeField(k, plan) && !InTotalField(k, plan) &&
                    OutsideAll(k, tableLog, 2, 6) && OutsideAll(k, tocLog, RecLba, RecSize)) ==> out[k] == spliced[k]
  }

  /** No write of the propagation passes lands in `[lo, hi)`. */
  predicate Untouched(lo: int, hi: int, tableLog: seq<nat>, tocLog: seq<nat>)
  {
    forall k :: lo <= k < hi ==> OutsideAll(k, tableLog, 2, 6) && OutsideAll(k, tocLog, RecLba, RecSize)
  }

  /** The size patch: when the payload size differs from the old size, the record's size
      field becomes the payload size in both byte orders, at the record's pre-splice position. */
  function PatchSize(spliced: Image, plan: Plan): (r: Result<Image>)
    ensures r.Err? ==> r.fault == OutOfRange
    ensures r.Ok? ==> |r.value| == |spliced|
    ensures r.Ok? ==> forall k :: 0 <= k < |spliced| && !InSizeField(k, plan) ==> r.value[k] == spliced[k]
    ensures plan.newSize == plan.oldSize ==> r == Ok(spliced)
    ensures r.Ok? && plan.newSize != plan.oldSize ==>
      && plan.found + RecSize + 8 <= |spliced|
      && LE32(r.value, plan.found + RecSize) == plan.newSize
      && BE32(r.value, plan.found + RecSizeBE) == plan.newSize
  {
    if plan.newSize != plan.oldSize then TryPutBoth32(spliced, plan.found + RecSize, plan.newSize)
    else Ok(spliced)
  }

  /** The descriptor's sector total holds `v` in both byte orders. */
  predicate TotalIs(img: seq<Byte>, v: U32)
  {
    TotalSectorsField + 8 <= |img| && LE32(img, TotalSectorsField) == v && BE32(img, TotalSectorsField + 4) == v
  }

  /** The image after the write phase, the path-table entries rewritten with the byte
      order of each one's table, and the directory records rewritten with the ordinal
      each was compared at. */
  datatype Replaced = Replaced(image: Image, tableLog: seq<nat>, tableOrders: seq<bool>,
                               tocLog: seq<nat>, tocOrdinals: seq<nat>)

  /** `[lo, hi)` misses the size field (when the size changed) and the descriptor total
      (when the delta is not zero). */
  predicate FieldsClear(lo: int, hi: int, plan: Plan)
  {
    && (plan.newSize != plan.oldSize ==> hi <= plan.found + RecSize || plan.found + RecSize + 8 <= lo)
    && (plan.diff != 0 ==> hi <= TotalSectorsField || TotalSectorsField + 8 <= lo)
  }

  /** No two logged LBA windows share a byte, and none meets the size field or the total. */
  predicate WritesApart(out: Replaced, plan: Plan)
  {
    && EntriesApart(out.tableLog)
    && Disjoint(out.tocLog)
    && (forall a, b :: 0 <= a < |out.tableLog| && 0 <= b < |out.tocLog| ==>
          out.tableLog[a] + 4 <= out.tocLog[b] || out.tocLog[b] + 8 <= out.tableLog[a])
    && (forall a :: 0 <= a < |out.tableLog| ==> FieldsClear(out.tableLog[a] + 2, out.tableLog[a] + 6, plan))
    && (forall b :: 0 <= b < |out.tocLog| ==> FieldsClear(out.tocLog[b] + RecLba, out.tocLog[b] + RecSize, plan))
  }

  /** What the logs of the write phase mean: when the logged writes are apart, every logged
      path-table entry and every logged directory record passed its shift test on `before`
      and holds its old LBA plus the delta in the result. */
  predicate Moves(before: seq<Byte>, out: Replaced, plan: Plan)
  {
    && |out.tableOrders| == |out.tableLog| && |out.tocOrdinals| == |out.tocLog|
    && (WritesApart(out, plan) ==>
         && (forall j :: 0 <= j < |out.tableLog| ==>
               EntryMoved(before, out.image, out.tableLog[j], out.tableOrders[j], plan.fileLba, plan.diff))
         && (forall j :: 0 <= j < |out.tocLog| ==>
               MovedRecord(before, out.image, out.tocLog[j], out.tocOrdinals[j], plan.found, plan.fileLba, plan.diff)))
  }

  /** The propagation passes change only the descriptor total and the logged LBA fields. */
  predicate PropagationFrame(sized: seq<Byte>, out: Replaced, plan: Plan)
  {
    forall k :: (0 <= k < |sized| && !InTotalField(k, plan) &&
                 OutsideAll(k, out.tableLog, 2, 6) && OutsideAll(k, out.tocLog, RecLba, RecSize)) ==>
      k < |out.image| && out.image[k] == sized[k]
  }

  lemma StagesCompose(spliced: Image, sized: Image, out: Replaced, plan: Plan)
    requires |sized| == |spliced| && |out.image| == |sized|
    requires forall k :: 0 <= k < |spliced| && !InSizeField(k, plan) ==> sized[k] == spliced[k]
    requires plan.diff != 0 ==> PropagationFrame(sized, out, plan)
    requires plan.diff == 0 ==> out == Replaced(sized, [], [], [], [])
    ensures OnlyPatched(spliced, out.image, plan, out.tableLog, out.tocLog)
  {
  }

  /** The propagation of a non-zero delta: the descriptor total becomes
      `imageSectors + diff` (wrapping), then the path tables, then the directory records. */
  function Propagate(sized: Image, plan: Plan, fuel: nat): (r: Result<Replaced>)
    requires plan.diff != 0
    ensures r.Err? ==> r.fault != NotFound && r.fault != TooLarge
    ensures r.Ok? ==> |r.value.image| == |sized| && TotalSectorsField + 8 <= |sized|
    ensures r.Ok? ==> PropagationFrame(sized, r.value, plan)
    ensures r.Ok? && Untouched(TotalSectorsField, TotalSectorsField + 8, r.value.tableLog, r.value.tocLog) ==>
      TotalIs(r.value.image, Wrap32(plan.imageSectors + plan.diff))
    ensures r.Ok? ==> Moves(sized, r.value, plan)
    ensures r.Ok? && TablePathLbaField(0) + 4 <= |sized| ==>
      var total := PutBoth32(sized, TotalSectorsField, Wrap32(plan.imageSectors + plan.diff));
      LE32(total, TablePathLbaField(0)) != 0 ==>
        var first := ShiftTable(total, SlotTableLba(total, 0), LE32(total, TablePathLenField), plan.fileLba, plan.diff, false, 0);
        first.Ok? && first.value.log <= r.value.tableLog
  {
    match TryPutBoth32(sized, TotalSectorsField, Wrap32(plan.imageSectors + plan.diff))
    case Err(f) => Err(f)
    case Ok(total) =>
      match ShiftTables(total, 0, plan.fileLba, plan.diff)
      case Err(f) => Err(f)
      case Ok(tables) =>
        match TocDir(tables.image, plan.rootLba, plan.rootLength, plan.found, plan.fileLba, plan.diff, fuel)
        case Err(f) => Err(f)
        case Ok(toc) =>
          PropagationStages(sized, total, tables, toc, plan);
          PropagationMoves(sized, total, tables, toc, plan);
          Ok(Replaced(toc.image, tables.log, tables.orders, toc.log, toc.ordinals))
  }

  /** The three propagation stages together: the total written first, then changes confined
      to the path-table windows, then changes confined to the record windows. */
  lemma PropagationStages(sized: Image, total: Image, tables: TablesPatched, toc: Rewritten, plan: Plan)
    requires plan.diff != 0
    requires TotalSectorsField + 8 <= |sized| && |total| == |sized|
    requires LE32(total, TotalSectorsField) == Wrap32(plan.imageSectors + plan.diff)
    requires BE32(total, TotalSectorsField + 4) == Wrap32(plan.imageSectors + plan.diff)
    requires forall k :: 0 <= k < |sized| && !(TotalSectorsField <= k < TotalSectorsField + 8) ==> total[k] == sized[k]
    requires SameOutsideWindows(total, tables.image, tables.log, 2, 6)
    requires FramedBy(tables.image, toc)
    ensures var out := Replaced(toc.image, tables.log, tables.orders, toc.log, toc.ordinals);
      && |out.image| == |sized|
      && PropagationFrame(sized, out, plan)
      && (Untouched(TotalSectorsField, TotalSectorsField + 8, out.tableLog, out.tocLog) ==>
            TotalIs(out.image, Wrap32(plan.imageSectors + plan.diff)))
  {
    if Untouched(TotalSectorsField, TotalSectorsField + 8, tables.log, toc.log) {
      FieldFrame(total, toc.image, TotalSectorsField);
      FieldFrame(total, toc.image, TotalSectorsField + 4);
    }
  }

  /** A path-table entry moved by the tables pass stays moved through record writes that
      are clear of its LBA. */
  lemma EntryThroughRecords(before: Image, mid: Image, out: Image, tocLog: seq<nat>, t: nat, bigEndian: bool, lbaOld: U32, diff: int)
    requires EntryMoved(before, mid, t, bigEndian, lbaOld, diff)
    requires SameOutsideWindows(mid, out, tocLog, RecLba, RecSize)
    requires forall b :: 0 <= b < |tocLog| ==> t + 4 <= tocLog[b] || tocLog[b] + 8 <= t
    ensures EntryMoved(before, out, t, bigEndian, lbaOld, diff)
  {
    forall k | t + 2 <= k < t + 6
      ensures mid[k] == out[k]
    {
      assert OutsideAll(k, tocLog, RecLba, RecSize);
    }
    FieldFrame(mid, out, t + 2);
  }

  /** A directory record moved by the TOC pass read the LBA the tables pass started from
      when the path-table writes are clear of it. */
  lemma RecordThroughTables(before: Image, mid: Image, out: Image, tableLog: seq<nat>, p: nat, ordinal: nat,
                            found: nat, lbaOld: U32, diff: int)
    requires MovedRecord(mid, out, p, ordinal, found, lbaOld, diff)
    requires SameOutsideWindows(before, mid, tableLog, 2, 6)
    requires forall a :: 0 <= a < |tableLog| ==> tableLog[a] + 4 <= p || p + 8 <= tableLog[a]
    ensures MovedRecord(before, out, p, ordinal, found, lbaOld, diff)
  {
    forall k | p + RecLba <= k < p + RecLba + 4
      ensures before[k] == mid[k]
    {
      assert OutsideAll(k, tableLog, 2, 6);
    }
    FieldFrame(before, mid, p + RecLba);
  }

  /** The tables pass and the TOC pass together move what they log, relative to the image
      they started from, once the logged writes are apart. */
  lemma PropagationMoves(sized: Image, total: Image, tables: TablesPatched, toc: Rewritten, plan: Plan)
    requires |total| == |sized|
    requires forall k :: 0 <= k < |sized| && !InTotalField(k, plan) ==> total[k] == sized[k]
    requires SameOutsideWindows(total, tables.image, tables.log, 2, 6)
    requires TablesMoved(total, tables, plan.fileLba, plan.diff)
    requires FramedBy(tables.image, toc) && Moved(tables.image, toc, plan.found, plan.fileLba, plan.diff)
    ensures Moves(sized, Replaced(toc.image, tables.log, tables.orders, toc.log, toc.ordinals), plan)
  {
    var out := Replaced(toc.image, tables.log, tables.orders, toc.log, toc.ordinals);
    if WritesApart(out, plan) {
      forall j | 0 <= j < |tables.log|
        ensures EntryMoved(total, toc.image, tables.log[j], tables.orders[j], plan.fileLba, plan.diff)
      {
        EntryThroughRecords(total, tables.image, toc.image, toc.log, tables.log[j], tables.orders[j], plan.fileLba, plan.diff);
      }
      forall j | 0 <= j < |toc.log|
        ensures MovedRecord(total, toc.image, toc.log[j], toc.ordinals[j], plan.found, plan.fileLba, plan.diff)
      {
        RecordThroughTables(total, tables.image, toc.image, tables.log, toc.log[j], toc.ordinals[j],
                            plan.found, plan.fileLba, plan.diff);
      }
    }
    MovesBeforeFields(sized, total, out, plan);
  }

  /** Moves carry back over writes to the size field and the total, which the logged windows
      miss when they are apart. */
  lemma MovesBeforeFields(a: Image, b: Image, out: Replaced, plan: Plan)
    requires |a| == |b|
    requires forall k :: 0 <= k < |a| && !InSizeField(k, plan) && !InTotalField(k, plan) ==> a[k] == b[k]
    requires Moves(b, out, plan)
    ensures Moves(a, out, plan)
  {
    if WritesApart(out, plan) {
      forall j | 0 <= j < |out.tableLog|
        ensures EntryMoved(a, out.image, out.tableLog[j], out.tableOrders[j], plan.fileLba, plan.diff)
      {
        EntryBeforeFields(a, b, out.image, out.tableLog[j], out.tableOrders[j], plan);
      }
      forall j | 0 <= j < |out.tocLog|
        ensures MovedRecord(a, out.image, out.tocLog[j], out.tocOrdinals[j], plan.found, plan.fileLba, plan.diff)
      {
        RecordBeforeFields(a, b, out.image, out.tocLog[j], out.tocOrdinals[j], plan);
      }
    }
  }

  lemma EntryBeforeFields(a: Image, b: Image, out: Image, t: nat, bigEndian: bool, plan: Plan)
    requires |a| == |b|
    requires forall k :: 0 <= k < |a| && !InSizeField(k, plan) && !InTotalField(k, plan) ==> a[k] == b[k]
    requires EntryMoved(b, out, t, bigEndian, plan.fileLba, plan.diff)
    requires FieldsClear(t + 2, t + 6, plan)
    ensures EntryMoved(a, out, t, bigEndian, plan.fileLba, plan.diff)
  {
    forall k | t + 2 <= k < t + 6
      ensures a[k] == b[k]
    {
      assert !InSizeField(k, plan) && !InTotalField(k, plan);
    }
    FieldFrame(a, b, t + 2);
  }

  lemma RecordBeforeFields(a: Image, b: Image, out: Image, p: nat, ordinal: nat, plan: Plan)
    requires |a| == |b|
    requires forall k :: 0 <= k < |a| && !InSizeField(k, plan) && !InTotalField(k, plan) ==> a[k] == b[k]
    requires MovedRecord(b, out, p, ordinal, plan.found, plan.fileLba, plan.diff)
    requires FieldsClear(p + RecLba, p + RecSize, plan)
    ensures MovedRecord(a, out, p, ordinal, plan.found, plan.fileLba, plan.diff)
  {
    forall k | p + RecLba <= k < p + RecLba + 4
      ensures a[k] == b[k]
    {
      assert !InSizeField(k, plan) && !InTotalField(k, plan);
    }
    FieldFrame(a, b, p + RecLba);
  }

  /** The writes after the size patch: nothing when the delta is zero, the propagation
      passes otherwise. */
  function Finish(spliced: Image, sized: Image, plan: Plan, fuel: nat): (r: Result<Replaced>)
    requires |sized| == |spliced|
    requires forall k :: 0 <= k < |spliced| && !InSizeField(k, plan) ==> sized[k] == spliced[k]
    ensures r.Ok? ==> OnlyPatched(spliced, r.value.image, plan, r.value.tableLog, r.value.tocLog)
    ensures r.Ok? ==> |r.value.image| == |sized| && PropagationFrame(sized, r.value, plan)
    ensures plan.diff == 0 ==> r == Ok(Replaced(sized, [], [], [], []))
    ensures r.Ok? ==> Moves(spliced, r.value, plan)
  {
    if plan.diff == 0 then
      StagesCompose(spliced, sized, Replaced(sized, [], [], [], []), plan);
      Ok(Replaced(sized, [], [], [], []))
    else
      var out := Propagate(sized, plan, fuel);
      if out.Ok? then
        StagesCompose(spliced, sized, out.value, plan);
        MovesBeforeFields(spliced, sized, out.value, plan);
        out
      else out
  }

  /** The write phase of `Replace` for a located file. */
  function Apply(img: Image, plan: Plan, payload: Image, fuel: nat): (r: Result<Replaced>)
    ensures r.Ok? ==> Splice(img, plan, payload).Ok?
    ensures r.Ok? ==> OnlyPatched(Splice(img, plan, payload).value, r.value.image, plan, r.value.tableLog, r.value.tocLog)
    ensures r.Ok? && plan.diff == 0 ==> r.value.tableLog == [] && r.value.tocLog == []
    ensures r.Ok? ==> Moves(Splice(img, plan, payload).value, r.value, plan)
  {
    match Splice(img, plan, payload)
    case Err(f) => Err(f)
    case Ok(spliced) =>
      match PatchSize(spliced, plan)
      case Err(f) => Err(f)
      case Ok(sized) => Finish(spliced, sized, plan, fuel)
  }

  /** A successful write phase is the splice, then the size patch, then the rest. */
  lemma ApplyIsFinish(img: Image, plan: Plan, payload: Image, fuel: nat)
    requires Apply(img, plan, payload, fuel).Ok?
    ensures Splice(img, plan, payload).Ok? && PatchSize(Splice(img, plan, payload).value, plan).Ok?
    ensures var spliced := Splice(img, plan, payload).value;
      Apply(img, plan, payload, fuel) == Finish(spliced, PatchSize(spliced, plan).value, plan, fuel)
  {
  }

  /** The size field is eight bytes clear of the descriptor total. */
  predicate SizeClearOfTotal(plan: Plan)
  {
    plan.found + RecSize + 8 <= TotalSectorsField || TotalSectorsField + 8 <= plan.found + RecSize
  }

  /** The size patch survives the later writes: when the size changed, the record's size
      field holds the payload size in both byte orders at the end, unless a path-table or
      record write lands on it or (with a non-zero delta) the descriptor total overlaps it. */
  lemma FinishSetsSize(spliced: Image, sized: Image, plan: Plan, fuel: nat)
    requires PatchSize(spliced, plan) == Ok(sized) && plan.newSize != plan.oldSize
    requires Finish(spliced, sized, plan, fuel).Ok?
    requires plan.diff != 0 ==> SizeClearOfTotal(plan)
    requires var r := Finish(spliced, sized, plan, fuel).value;
      Untouched(plan.found + RecSize, plan.found + RecSize + 8, r.tableLog, r.tocLog)
    ensures var out := Finish(spliced, sized, plan, fuel).value.image;
      && LE32(out, plan.found + RecSize) == plan.newSize
      && BE32(out, plan.found + RecSizeBE) == plan.newSize
  {
    SizeSurvives(sized, Finish(spliced, sized, plan, fuel).value, plan);
  }

  lemma SizeSurvives(sized: Image, out: Replaced, plan: Plan)
    requires plan.found + RecSize + 8 <= |sized| && |out.image| == |sized|
    requires PropagationFrame(sized, out, plan)
    requires plan.diff != 0 ==> SizeClearOfTotal(plan)
    requires Untouched(plan.found + RecSize, plan.found + RecSize + 8, out.tableLog, out.tocLog)
    ensures LE32(out.image, plan.found + RecSize) == LE32(sized, plan.found + RecSize)
    ensures BE32(out.image, plan.found + RecSizeBE) == BE32(sized, plan.found + RecSizeBE)
  {
    assert forall k :: plan.found + RecSize <= k < plan.found + RecSize + 8 ==> !InTotalField(k, plan);
    FieldFrame(sized, out.image, plan.found + RecSize);
    FieldFrame(sized, out.image, plan.found + RecSizeBE);
  }

  /** The same for the whole write phase. */
  lemma ApplySetsSize(img: Image, plan: Plan, payload: Image, fuel: nat)
    requires Apply(img, plan, payload, fuel).Ok?
    requires plan.newSize != plan.oldSize
    requires plan.diff != 0 ==> SizeClearOfTotal(plan)
    requires var r := Apply(img, plan, payload, fuel).value;
      Untouched(plan.found + RecSize, plan.found + RecSize + 8, r.tableLog, r.tocLog)
    ensures var out := Apply(img, plan, payload, fuel).value.image;
      && LE32(out, plan.found + RecSize) == plan.newSize
      && BE32(out, plan.found + RecSizeBE) == plan.newSize
  {
    ApplyIsFinish(img, plan, payload, fuel);
    var spliced := Splice(img, plan, payload).value;
    FinishSetsSize(spliced, PatchSize(spliced, plan).value, plan, fuel);
  }

  /** A replacement that changed the file's size leaves the new size in the record it
      located, under the same conditions. */
  lemma ReplaceSetsSize(img: Image, name: string, payload: Image, fuel: nat)
    requires Replace(img, name, payload, fuel).Ok?
    requires var plan := Locate(img, name, payload, fuel).value;
      var r := Replace(img, name, payload, fuel).value;
      && plan.newSize != plan.oldSize
      && (plan.diff != 0 ==> SizeClearOfTotal(plan))
      && Untouched(plan.found + RecSize, plan.found + RecSize + 8, r.tableLog, r.tocLog)
    ensures var plan := Locate(img, name, payload, fuel).value;
      var out := Replace(img, name, payload, fuel).value.image;
      && |payload| != LE32(img, plan.found + RecSize)
      && LE32(out, plan.found + RecSize) == |payload|
      && BE32(out, plan.found + RecSizeBE) == |payload|
  {
    ReplaceIsApply(img, name, payload, fuel);
    ApplySetsSize(img, Locate(img, name, payload, fuel).value, payload, fuel);
  }

  /** With a non-zero delta the descriptor total becomes `imageSectors + diff` (modulo 2^32)
      in both byte orders, unless a later path-table or record write lands on it. */
  lemma PropagateSetsTotal(sized: Image, plan: Plan, fuel: nat)
    requires plan.diff != 0 && Propagate(sized, plan, fuel).Ok?
    requires var r := Propagate(sized, plan, fuel).value;
      Untouched(TotalSectorsField, TotalSectorsField + 8, r.tableLog, r.tocLog)
    ensures TotalIs(Propagate(sized, plan, fuel).value.image, Wrap32(plan.imageSectors + plan.diff))
  {
  }

  lemma FinishSetsTotal(spliced: Image, sized: Image, plan: Plan, fuel: nat)
    requires |sized| == |spliced|
    requires forall k :: 0 <= k < |spliced| && !InSizeField(k, plan) ==> sized[k] == spliced[k]
    requires Finish(spliced, sized, plan, fuel).Ok? && plan.diff != 0
    requires var r := Finish(spliced, sized, plan, fuel).value;
      Untouched(TotalSectorsField, TotalSectorsField + 8, r.tableLog, r.tocLog)
    ensures TotalIs(Finish(spliced, sized, plan, fuel).value.image, Wrap32(plan.imageSectors + plan.diff))
  {
    var out := Propagate(sized, plan, fuel);
    assert Finish(spliced, sized, plan, fuel) == out;
    PropagateSetsTotal(sized, plan, fuel);
  }

  /** The same for the whole write phase. */
  lemma ApplySetsTotal(img: Image, plan: Plan, payload: Image, fuel: nat)
    requires Apply(img, plan, payload, fuel).Ok? && plan.diff != 0
    requires var r := Apply(img, plan, payload, fuel).value;
      Untouched(TotalSectorsField, TotalSectorsField + 8, r.tableLog, r.tocLog)
    ensures TotalIs(Apply(img, plan, payload, fuel).value.image, Wrap32(plan.imageSectors + plan.diff))
  {
    ApplyIsFinish(img, plan, payload, fuel);
    var spliced := Splice(img, plan, payload).value;
    FinishSetsTotal(spliced, PatchSize(spliced, plan).value, plan, fuel);
  }

  /** `Replace`: locate, then write. */
  function Replace(img: Image, name: string, payload: Image, fuel: nat): (r: Result<Replaced>)
    ensures r.Ok? ==> Locate(img, name, payload, fuel).Ok?
    ensures r.Ok? ==>
      var plan := Locate(img, name, payload, fuel).value;
      && Splice(img, plan, payload).Ok?
      && OnlyPatched(Splice(img, plan, payload).value, r.value.image, plan, r.value.tableLog, r.value.tocLog)
      && (plan.diff == 0 ==> r.value.tableLog == [] && r.value.tocLog == [])
      && Moves(Splice(img, plan, payload).value, r.value, plan)
  {
    var plan :- Locate(img, name, payload, fuel);
    Apply(img, plan, payload, fuel)
  }

  /** The counts `Locate` derives from the sizes it read. */
  predicate CountsConsistent(plan: Plan, payload: seq<Byte>)
  {
    && plan.newSize == |payload|
    && plan.newSectors == CeilSectors(plan.newSize)
    && plan.oldSectors == CeilSectors(plan.oldSize)
    && plan.diff == plan.newSectors - plan.oldSectors
  }

  /** A successful replacement is the write phase applied to what the read phase found. */
  lemma ReplaceIsApply(img: Image, name: string, payload: Image, fuel: nat)
    requires Replace(img, name, payload, fuel).Ok?
    ensures Locate(img, name, payload, fuel).Ok?
    ensures CountsConsistent(Locate(img, name, payload, fuel).value, payload)
    ensures Replace(img, name, payload, fuel) == Apply(img, Locate(img, name, payload, fuel).value, payload, fuel)
  {
  }

  /** The image length after the splice stage. An empty payload splices nothing, so the
      length stays while the delta is minus the old sector count; otherwise, when the file's
      sector run does not wrap a 32-bit byte offset, the length changes by 2048 times the delta. */
  lemma SplicedLength(img: Image, plan: Plan, payload: Image)
    requires CountsConsistent(plan, payload)
    requires Splice(img, plan, payload).Ok?
    ensures var spliced := Splice(img, plan, payload).value;
      && (|payload| == 0 ==> plan.newSectors == 0 && |spliced| == |img| && plan.diff == -(plan.oldSectors as int))
      && (plan.newSectors != 0 && plan.fileLba as int + plan.oldSectors < 0x10_0000 ==>
            |spliced| == |img| + SectorSize * plan.diff)
  {
    if plan.newSectors != 0 && plan.fileLba as int + plan.oldSectors < 0x10_0000 {
      SpliceLength(img, plan.fileLba, plan.oldSectors, payload);
    }
  }

  /** The same length statement for a whole replacement. */
  lemma ReplaceLength(img: Image, name: string, payload: Image, fuel: nat)
    requires Replace(img, name, payload, fuel).Ok?
    ensures Locate(img, name, payload, fuel).Ok?
    ensures var plan := Locate(img, name, payload, fuel).value;
      var out := Replace(img, name, payload, fuel).value.image;
      && (|payload| == 0 ==> plan.newSectors == 0 && |out| == |img| && plan.diff == -(plan.oldSectors as int))
      && (plan.newSectors != 0 && plan.fileLba as int + plan.oldSectors < 0x10_0000 ==>
            |out| == |img| + SectorSize * plan.diff)
  {
    SplicedLength(img, Locate(img, name, payload, fuel).value, payload);
  }

  /** A payload with as many sectors as the old file leaves the image length unchanged and
      runs neither propagation pass (when the sector run does not wrap). */
  lemma SameSectorCountKeepsLayout(img: Image, name: string, payload: Image, fuel: nat)
    requires Replace(img, name, payload, fuel).Ok?
    requires var plan := Locate(img, name, payload, fuel).value;
      plan.newSectors == plan.oldSectors && plan.fileLba as int + plan.oldSectors < 0x10_0000
    ensures var out := Replace(img, name, payload, fuel).value;
      |out.image| == |img| && out.tableLog == [] && out.tocLog == []
  {
    ReplaceLength(img, name, payload, fuel);
  }
}
