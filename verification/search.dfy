/** The depth-first directory search (UMDReplaceK/Program.cs, `Search`).

    The walk visits the sectors of a directory extent in order and, in each sector, the
    records one after another by their length byte. A directory record (flag byte 2) is
    searched recursively before the scan goes on; any other record is compared with the
    target path. The program returns a byte position, 0 meaning "not found"; here the walk
    returns the hit together with the path it matched, and `Search` projects the position.
    `fuel` bounds the recursion depth, which the program leaves unbounded. */
module DirectorySearch {
  import opened Outcomes
  import opened ByteBuffer
  import opened Names
  import opened Sectors
  import opened Layout

  /** A hit: the file record's position, the positions of the directory records the walk
      descended through from the extent it started in, outermost first, and the path it
      matched. */
  datatype Hit = Hit(pos: nat, dirs: seq<nat>, path: string)

  /** The record at `p` lies in one of the sectors `lo <= s < hi` of the extent at `lba`,
      at an offset below 2048, addressed as the search addresses it. */
  ghost predicate Within(p: int, lba: U32, lo: nat, hi: nat)
  {
    exists s: nat, q: nat :: lo <= s < hi && q < SectorSize && p == SearchPosition(lba, s, q)
  }

  /** The first record of a chain: the outermost directory, or the file itself. */
  function First(dirs: seq<nat>, file: nat): nat
  {
    if dirs == [] then file else dirs[0]
  }

  /** `path` is the path the walk builds when it descends through the directory records at
      `dirs`, in order, and ends at the file record at `file`: a slash and the decoded name
      of each directory, then a slash and the file's decoded name. Each record of the chain
      lies in the extent (LBA at +2, length at +10) of the directory before it. */
  ghost predicate Resolves(img: seq<Byte>, dirs: seq<nat>, file: nat, path: string)
    decreases |dirs|
  {
    if dirs == [] then
      FileRecordAt(img, file) && path == JoinPath("", DecodeName(NameBytes(img, file)))
    else
      DirRecordAt(img, dirs[0]) &&
      var head := JoinPath("", DecodeName(NameBytes(img, dirs[0])));
      && |head| <= |path|
      && path[..|head|] == head
      && Within(First(dirs[1..], file), LE32(img, dirs[0] + RecLba), 0, CeilSectors(LE32(img, dirs[0] + RecSize)))
      && Resolves(img, dirs[1..], file, path[|head|..])
  }

  /** What a hit found under `parent`, scanning sectors `lo <= s < hi` of the extent at
      `lba`, promises: its chain starts in those sectors, its path is `parent` followed by
      the path the chain resolves to, it ends at a file record whose name is the path's last
      component, and the path equals the target up to case. */
  ghost predicate HitUnder(img: seq<Byte>, target: string, parent: string, lba: U32, lo: nat, hi: nat, h: Hit)
  {
    && Within(First(h.dirs, h.pos), lba, lo, hi)
    && parent <= h.path
    && Resolves(img, h.dirs, h.pos, h.path[|parent|..])
    && FileRecordAt(img, h.pos)
    && IsSuffix(JoinPath("", DecodeName(NameBytes(img, h.pos))), h.path)
    && EqualsIgnoreCase(target, h.path)
  }

  predicate IsSuffix(tail: string, s: string)
  {
    |tail| <= |s| && s[|s| - |tail|..] == tail
  }

  function FindInDir(img: Image, target: string, path: string, lba: U32, len: U32, fuel: nat)
    : (r: Result<Option<Hit>>)
    ensures r.Ok? && r.value.Some? ==> HitUnder(img, target, path, lba, 0, CeilSectors(len), r.value.value)
    ensures r.Err? ==> r.fault == OutOfRange || r.fault == DepthExhausted
    decreases fuel, 0, 0
  {
    if fuel == 0 then Err(DepthExhausted)
    else FindInSectors(img, target, path, lba, 0, CeilSectors(len), fuel - 1)
  }

  function FindInSectors(img: Image, target: string, path: string, lba: U32, i: nat, n: nat, fuel: nat)
    : (r: Result<Option<Hit>>)
    ensures r.Ok? && r.value.Some? ==> HitUnder(img, target, path, lba, i, n, r.value.value)
    ensures r.Err? ==> r.fault == OutOfRange || r.fault == DepthExhausted
    decreases fuel, 2, n - i
  {
    if i >= n then Ok(None)
    else
      match FindInRecords(img, target, path, lba, i, 0, fuel)
      case Err(f) => Err(f)
      case Ok(Some(h)) => Ok(Some(h))
      case Ok(None) => FindInSectors(img, target, path, lba, i + 1, n, fuel)
  }

  /** The record scan of sector `i`: it runs while `pos < 2048` and `pos + 4` is below the
      image length (the program compares the in-sector offset, not the absolute one), and
      stops at a position past the image or at a zero length byte. */
  function FindInRecords(img: Image, target: string, path: string, lba: U32, i: nat, pos: nat, fuel: nat)
    : (r: Result<Option<Hit>>)
    ensures r.Ok? && r.value.Some? ==> HitUnder(img, target, path, lba, i, i + 1, r.value.value)
    ensures r.Err? ==> r.fault == OutOfRange || r.fault == DepthExhausted
    decreases fuel, 1, SectorSize - pos, 2
  {
    if !(pos < SectorSize && pos + 4 < |img|) then Ok(None)
    else
      var at := SearchPosition(lba, i, pos);
      if at >= |img| || img[at] == 0 then Ok(None)
      else if at + RecNameLen >= |img| || at + RecName + img[at + RecNameLen] > |img| then Err(OutOfRange)
      else FindAt(img, target, path, lba, i, pos, at, fuel)
  }

  /** The visit of the record at `at` (offset `pos` of sector `i`): skip `.`/`..`, search a
      directory, compare any other record's path, and otherwise scan on. */
  function FindAt(img: Image, target: string, path: string, lba: U32, i: nat, pos: nat, at: nat, fuel: nat)
    : (r: Result<Option<Hit>>)
    requires pos < SectorSize && at == SearchPosition(lba, i, pos)
    requires NameInRange(img, at) && img[at] != 0
    ensures r.Ok? && r.value.Some? ==> HitUnder(img, target, path, lba, i, i + 1, r.value.value)
    ensures r.Err? ==> r.fault == OutOfRange || r.fault == DepthExhausted
    decreases fuel, 1, SectorSize - pos, 1
  {
    var raw := NameBytes(img, at);
    if IsDot(raw, StrippedLength(raw)) then FindInRecords(img, target, path, lba, i, pos + img[at], fuel)
    else if img[at + RecFlags] == DirectoryFlag then DescendAt(img, target, path, lba, i, pos, at, fuel)
    else
      var candidate := JoinPath(path, DecodeName(raw));
      if EqualsIgnoreCase(target, candidate) then
        MatchIsHit(img, target, path, lba, i, pos);
        Ok(Some(Hit(at, [], candidate)))
      else FindInRecords(img, target, path, lba, i, pos + img[at], fuel)
  }

  /** The directory record at `at`: search its extent under the extended path and stop at a
      hit there, or scan on past the record. */
  function DescendAt(img: Image, target: string, path: string, lba: U32, i: nat, pos: nat, at: nat, fuel: nat)
    : (r: Result<Option<Hit>>)
    requires pos < SectorSize && at == SearchPosition(lba, i, pos)
    requires DirRecordAt(img, at)
    ensures r.Ok? && r.value.Some? ==> HitUnder(img, target, path, lba, i, i + 1, r.value.value)
    ensures r.Err? ==> r.fault == OutOfRange || r.fault == DepthExhausted
    decreases fuel, 1, SectorSize - pos, 0
  {
    var candidate := JoinPath(path, DecodeName(NameBytes(img, at)));
    match FindInDir(img, target, candidate, LE32(img, at + RecLba), LE32(img, at + RecSize), fuel)
    case Err(f) => Err(f)
    case Ok(sub) =>
      if sub.Some? && sub.value.pos != 0 then
        DescentKeepsHit(img, target, path, lba, i, pos, sub.value);
        Ok(Some(Hit(sub.value.pos, [at] + sub.value.dirs, sub.value.path)))
      else FindInRecords(img, target, path, lba, i, pos + img[at], fuel)
  }

  /** A file record matched in sector `i` at offset `pos` is a hit with an empty chain. */
  lemma MatchIsHit(img: seq<Byte>, target: string, path: string, lba: U32, i: nat, pos: nat)
    requires pos < SectorSize
    requires FileRecordAt(img, SearchPosition(lba, i, pos))
    requires EqualsIgnoreCase(target, JoinPath(path, DecodeName(NameBytes(img, SearchPosition(lba, i, pos)))))
    ensures HitUnder(img, target, path, lba, i, i + 1,
                     Hit(SearchPosition(lba, i, pos), [], JoinPath(path, DecodeName(NameBytes(img, SearchPosition(lba, i, pos))))))
  {
    var at := SearchPosition(lba, i, pos);
    var name := JoinPath("", DecodeName(NameBytes(img, at)));
    var candidate := JoinPath(path, DecodeName(NameBytes(img, at)));
    JoinPathSplit(path, DecodeName(NameBytes(img, at)));
    assert candidate[|candidate| - |name|..] == name;
  }

  /** A hit found inside the subdirectory whose record sits in sector `i` at offset `pos`
      is a hit of the enclosing scan, with that record put in front of its chain. */
  lemma DescentKeepsHit(img: seq<Byte>, target: string, path: string, lba: U32, i: nat, pos: nat, h: Hit)
    requires pos < SectorSize
    requires DirRecordAt(img, SearchPosition(lba, i, pos))
    requires var at := SearchPosition(lba, i, pos);
      HitUnder(img, target, JoinPath(path, DecodeName(NameBytes(img, at))),
               LE32(img, at + RecLba), 0, CeilSectors(LE32(img, at + RecSize)), h)
    ensures HitUnder(img, target, path, lba, i, i + 1, Hit(h.pos, [SearchPosition(lba, i, pos)] + h.dirs, h.path))
  {
    var at := SearchPosition(lba, i, pos);
    var nm := DecodeName(NameBytes(img, at));
    DescentPath(path, nm, h.path);
    ResolvesCons(img, at, h.dirs, h.pos, h.path[|path|..]);
    assert Within(at, lba, i, i + 1);
    assert First([at] + h.dirs, h.pos) == at;
  }

  /** A path extending `path` followed by one more component `nm` extends `path`, and what
      it adds to `path` is that component followed by what it adds to the longer prefix. */
  lemma DescentPath(path: string, nm: string, full: string)
    requires JoinPath(path, nm) <= full
    ensures path <= full
    ensures var name := JoinPath("", nm);
      var rest := full[|path|..];
      && |name| <= |rest| && rest[..|name|] == name
      && rest[|name|..] == full[|JoinPath(path, nm)|..]
  {
    JoinPathSplit(path, nm);
    var candidate := JoinPath(path, nm);
    var name := JoinPath("", nm);
    var tail := full[|candidate|..];
    assert full == candidate + tail;
    assert full[|path|..] == name + tail by {
      assert full == path + (name + tail);
    }
  }

  /** Putting a directory record in front of a chain that resolves inside its extent. */
  lemma ResolvesCons(img: seq<Byte>, d: nat, dirs: seq<nat>, file: nat, path: string)
    requires DirRecordAt(img, d)
    requires var head := JoinPath("", DecodeName(NameBytes(img, d)));
      && |head| <= |path| && path[..|head|] == head
      && Within(First(dirs, file), LE32(img, d + RecLba), 0, CeilSectors(LE32(img, d + RecSize)))
      && Resolves(img, dirs, file, path[|head|..])
    ensures Resolves(img, [d] + dirs, file, path)
  {
    assert ([d] + dirs)[1..] == dirs;
  }

  /** True when the target's last `|name| + 1` characters are '/' and `name`, up to case. */
  predicate EndsWithName(target: string, name: string)
  {
    var tail := JoinPath("", name);
    |tail| <= |target| && EqualsIgnoreCase(target[|target| - |tail|..], tail)
  }

  /** The record at `p` is reached from the root extent at `rootLba` by a chain of
      directory records whose names, joined with the file's, spell `target` up to case. */
  ghost predicate Found(img: seq<Byte>, target: string, rootLba: U32, rootLen: U32, p: nat)
  {
    exists h: Hit :: h.pos == p && HitUnder(img, target, "", rootLba, 0, CeilSectors(rootLen), h)
  }

  /** `Search` from the root extent with an empty parent path. A result other than 0 is the
      position of a file record (not a directory, not `.`/`..`) reached from the root
      through directories whose names, with the file's, make up the target up to case. */
  function Search(img: Image, target: string, rootLba: U32, rootLen: U32, fuel: nat): (r: Result<nat>)
    ensures r.Ok? && r.value != 0 ==>
      && Found(img, target, rootLba, rootLen, r.value)
      && FileRecordAt(img, r.value)
      && EndsWithName(target, DecodeName(NameBytes(img, r.value)))
    ensures r.Err? ==> r.fault != NotFound && r.fault != TooLarge
  {
    match FindInDir(img, target, "", rootLba, rootLen, fuel)
    case Err(f) => Err(f)
    case Ok(None) => Ok(0)
    case Ok(Some(h)) =>
      SuffixOfMatch(target, h.path, JoinPath("", DecodeName(NameBytes(img, h.pos))));
      Ok(h.pos)
  }

  /** A target equal up to case to a path ends, up to case, with every suffix of that path. */
  lemma SuffixOfMatch(target: string, path: string, tail: string)
    requires EqualsIgnoreCase(target, path) && IsSuffix(tail, path)
    ensures |tail| <= |target| && EqualsIgnoreCase(target[|target| - |tail|..], tail)
  {
    assert EqualsIgnoreCase(target[|target| - |tail|..], path[|path| - |tail|..]);
  }

  /** The records from offset `pos` of sector `i` up to a match: each is a `.`/`..` record
      or a file record, each reached from the one before by its length byte within the
      sector, and the last is a file record whose path matches the target. */
  predicate FilesUpToMatch(img: seq<Byte>, target: string, path: string, lba: U32, i: nat, pos: nat)
    decreases SectorSize - pos
  {
    var at := SearchPosition(lba, i, pos);
    && pos < SectorSize && pos + 4 < |img|
    && NameInRange(img, at) && img[at] != 0
    && var raw := NameBytes(img, at);
       var dot := IsDot(raw, StrippedLength(raw));
       && (dot || img[at + RecFlags] != DirectoryFlag)
       && ((!dot && EqualsIgnoreCase(target, JoinPath(path, DecodeName(raw))))
           || FilesUpToMatch(img, target, path, lba, i, pos + img[at]))
  }

  /** Completeness of the scan of one sector over plain records: when the records from the
      cursor up to a matching file record are `.`/`..` or other file records, the scan
      reports a hit. */
  lemma {:induction false} ScanFindsMatch(img: Image, target: string, path: string, lba: U32, i: nat, pos: nat, fuel: nat)
    requires FilesUpToMatch(img, target, path, lba, i, pos)
    ensures FindInRecords(img, target, path, lba, i, pos, fuel).Ok?
    ensures FindInRecords(img, target, path, lba, i, pos, fuel).value.Some?
    decreases SectorSize - pos
  {
    var at := SearchPosition(lba, i, pos);
    var raw := NameBytes(img, at);
    if IsDot(raw, StrippedLength(raw)) || !EqualsIgnoreCase(target, JoinPath(path, DecodeName(raw))) {
      ScanFindsMatch(img, target, path, lba, i, pos + img[at], fuel);
    }
  }

  /** Completeness of `Search` for a target named in the root directory: when the root's
      records from its first one up to a matching file record are `.`/`..` or other file
      records, the walk finds a hit and `Search` returns its position. */
  lemma SearchFindsRootMatch(img: Image, target: string, rootLba: U32, rootLen: U32, fuel: nat)
    requires 0 < fuel && 0 < rootLen <= TwoTo32 - SectorSize
    requires FilesUpToMatch(img, target, "", rootLba, 0, 0)
    ensures FindInDir(img, target, "", rootLba, rootLen, fuel).Ok?
    ensures FindInDir(img, target, "", rootLba, rootLen, fuel).value.Some?
    ensures Search(img, target, rootLba, rootLen, fuel) == Ok(FindInDir(img, target, "", rootLba, rootLen, fuel).value.value.pos)
  {
    ScanFindsMatch(img, target, "", rootLba, 0, 0, fuel - 1);
  }
}
