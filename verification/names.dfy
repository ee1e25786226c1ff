/** Names and paths: decoding a directory record's name field, the `;1` version
    suffix, the `.`/`..` entries, the case-insensitive comparison and the
    normalisation of the requested path (UMDReplaceK/Program.cs, `Replace` and
    `Search`). */
module Names {
  import opened Outcomes
  import opened ByteBuffer

  const Semicolon: Byte := 59

  /** `Encoding.ASCII` decoding of one byte: bytes above 127 decode as '?'. */
  function AsciiChar(b: Byte): char
  {
    if b < 128 then b as char else '?'
  }

  function Ascii(bs: seq<Byte>): (s: string)
    ensures |s| == |bs|
    ensures forall k :: 0 <= k < |bs| ==> s[k] == AsciiChar(bs[k])
  {
    seq(|bs|, k requires 0 <= k < |bs| => AsciiChar(bs[k]))
  }

  /** The name length after the version discard: two shorter when the name is longer
      than two bytes and its second-to-last byte is ';' (the last byte is not inspected). */
  function StrippedLength(raw: seq<Byte>): (n: nat)
    ensures n <= |raw|
    ensures n < |raw| <==> |raw| > 2 && raw[|raw| - 2] == Semicolon
    ensures n < |raw| ==> n == |raw| - 2
  {
    if |raw| > 2 && raw[|raw| - 2] == Semicolon then |raw| - 2 else |raw|
  }

  /** The name a record contributes to a path: the stripped prefix, decoded. */
  function DecodeName(raw: seq<Byte>): (s: string)
    ensures |s| == StrippedLength(raw)
    ensures forall k :: 0 <= k < |s| ==> s[k] == AsciiChar(raw[k])
  {
    Ascii(raw[..StrippedLength(raw)])
  }

  /** The name as the program's `GetString` call decodes it: the whole buffer, in which only
      the ';' has been overwritten by a NUL byte, so the byte after it is still there. */
  function DecodeNameAsWritten(raw: seq<Byte>): (s: string)
    ensures |s| == |raw|
    ensures StrippedLength(raw) < |raw| ==>
      s[|raw| - 2] == 0 as char && forall k :: 0 <= k < |raw| && k != |raw| - 2 ==> s[k] == AsciiChar(raw[k])
    ensures StrippedLength(raw) == |raw| ==> s == DecodeName(raw)
  {
    if StrippedLength(raw) < |raw| then Ascii(raw[..|raw| - 2] + [0] + raw[|raw| - 1..])
    else Ascii(raw)
  }

  /** Stripping a `;1` suffix leaves exactly the base name. */
  lemma DecodeNameStripsVersion(base: seq<Byte>)
    requires |base| >= 1
    ensures DecodeName(base + [Semicolon, 49]) == Ascii(base)
  {
    var raw := base + [Semicolon, 49];
    assert raw[|raw| - 2] == Semicolon;
    assert raw[..StrippedLength(raw)] == base;
  }

  /** A name without a version suffix decodes in full. */
  lemma DecodeNameWithoutVersion(raw: seq<Byte>)
    requires !(|raw| > 2 && raw[|raw| - 2] == Semicolon)
    ensures DecodeName(raw) == Ascii(raw)
  {
    assert raw[..|raw|] == raw;
  }

  /** The `.` and `..` entries: a name of length `n == 1` whose byte is 0 or 1. */
  predicate IsDot(raw: seq<Byte>, n: nat)
  {
    n == 1 && |raw| >= 1 && (raw[0] == 0 || raw[0] == 1)
  }

  /** ASCII upper-casing, the part of `InvariantCultureIgnoreCase` this model keeps. */
  function FoldChar(c: char): char
  {
    if 'a' <= c <= 'z' then (c as int - 32) as char else c
  }

  function Fold(s: string): (r: string)
    ensures |r| == |s|
    ensures forall k :: 0 <= k < |s| ==> r[k] == FoldChar(s[k])
  {
    seq(|s|, k requires 0 <= k < |s| => FoldChar(s[k]))
  }

  /** Case-insensitive equality, position by position. */
  predicate EqualsIgnoreCase(a: string, b: string)
  {
    |a| == |b| && forall k :: 0 <= k < |a| ==> FoldChar(a[k]) == FoldChar(b[k])
  }

  /** Case-insensitive equality is equality of the folded strings. */
  lemma EqualsIgnoreCaseIsFoldEquality(a: string, b: string)
    ensures EqualsIgnoreCase(a, b) <==> Fold(a) == Fold(b)
  {
    if Fold(a) == Fold(b) {
      assert |a| == |b|;
      forall k | 0 <= k < |a|
        ensures FoldChar(a[k]) == FoldChar(b[k])
      {
        assert Fold(a)[k] == Fold(b)[k];
      }
    }
  }

  /** Case-insensitive equality is an equivalence. */
  lemma EqualsIgnoreCaseEquivalence(a: string, b: string, c: string)
    ensures EqualsIgnoreCase(a, a)
    ensures EqualsIgnoreCase(a, b) ==> EqualsIgnoreCase(b, a)
    ensures EqualsIgnoreCase(a, b) && EqualsIgnoreCase(b, c) ==> EqualsIgnoreCase(a, c)
  {
  }

  /** The candidate path of a record: its parent's path, a slash, its name. */
  function JoinPath(parent: string, name: string): (p: string)
    ensures |p| == |parent| + 1 + |name|
    ensures p[..|parent|] == parent && p[|parent|] == '/' && p[|parent| + 1..] == name
  {
    parent + "/" + name
  }

  /** A joined path is the parent followed by the one-component path of the name. */
  lemma JoinPathSplit(parent: string, name: string)
    ensures JoinPath(parent, name) == parent + JoinPath("", name)
    ensures JoinPath(parent, name)[|parent|..] == JoinPath("", name)
  {
    assert JoinPath(parent, name) == parent + ("/" + name);
  }

  predicate IsSeparator(c: char)
  {
    c == '/' || c == '\\'
  }

  function ToSlash(c: char): char
  {
    if c == '\\' then '/' else c
  }

  /** The requested path as `Replace` prepares it: a leading '/' is added unless the first
      character is already a separator, then every backslash becomes a slash. An empty name
      throws at `oldName[0]`. */
  function Normalize(name: string): (r: Result<string>)
    ensures r.Ok? <==> |name| > 0
    ensures r.Ok? ==> |r.value| > 0 && r.value[0] == '/'
    ensures r.Ok? ==> forall k :: 0 <= k < |r.value| ==> r.value[k] != '\\'
    ensures r.Ok? && IsSeparator(name[0]) ==>
      |r.value| == |name| && forall k :: 0 <= k < |name| ==> r.value[k] == ToSlash(name[k])
    ensures r.Ok? && !IsSeparator(name[0]) ==>
      |r.value| == |name| + 1 && forall k :: 0 <= k < |name| ==> r.value[k + 1] == ToSlash(name[k])
  {
    if |name| == 0 then Err(OutOfRange)
    else
      var rooted := if name[0] != '/' && name[0] != '\\' then "/" + name else name;
      Ok(seq(|rooted|, k requires 0 <= k < |rooted| => ToSlash(rooted[k])))
  }

  /** Normalising an already normalised path changes nothing. */
  lemma NormalizeIdempotent(name: string)
    requires |name| > 0
    ensures Normalize(Normalize(name).value) == Normalize(name)
  {
    var n := Normalize(name).value;
    assert Normalize(n).value == n;
  }

  /** Two names that differ only in which separator they use normalise to the same path. */
  lemma NormalizeIgnoresSeparatorKind(a: string, b: string)
    requires |a| == |b|
    requires forall k :: 0 <= k < |a| ==> a[k] == b[k] || (IsSeparator(a[k]) && IsSeparator(b[k]))
    ensures Normalize(a) == Normalize(b)
  {
    if |a| > 0 {
      assert IsSeparator(a[0]) == IsSeparator(b[0]);
      var ra, rb := Normalize(a).value, Normalize(b).value;
      assert |ra| == |rb|;
      forall k | 0 <= k < |ra|
        ensures ra[k] == rb[k]
      {
        if !IsSeparator(a[0]) && k > 0 {
          assert ra[k] == ToSlash(a[k - 1]) && rb[k] == ToSlash(b[k - 1]);
        }
      }
      assert ra == rb;
    }
  }

  /** A backslash-separated relative path resolves like its slash-separated absolute form. */
  lemma NormalizeBackslashExample()
    ensures Normalize("A\\SUB\\FILE.BIN") == Ok("/A/SUB/FILE.BIN")
  {
    var r := Normalize("A\\SUB\\FILE.BIN").value;
    assert r == "/A/SUB/FILE.BIN";
  }

  /** The decoding as written never matches where the stripped decoding does: it carries two
      characters more, so no target equals both candidate paths. */
  lemma AsWrittenDecodingMissesVersionedNames(target: string, parent: string, raw: seq<Byte>)
    requires StrippedLength(raw) < |raw|
    requires EqualsIgnoreCase(target, JoinPath(parent, DecodeName(raw)))
    ensures !EqualsIgnoreCase(target, JoinPath(parent, DecodeNameAsWritten(raw)))
  {
    assert |DecodeNameAsWritten(raw)| == |raw|;
    assert |DecodeName(raw)| == |raw| - 2;
  }

  /** The concrete case: a record named `A.BIN;1` is found for `/A.BIN` by the stripped
      decoding and decodes as `A.BIN`, NUL, `1` as written. */
  lemma VersionedNameExample()
    ensures var raw: seq<Byte> := [65, 46, 66, 73, 78, 59, 49];
      && DecodeName(raw) == "A.BIN"
      && DecodeNameAsWritten(raw) == "A.BIN\01"
      && EqualsIgnoreCase("/a.bin", JoinPath("", DecodeName(raw)))
      && !EqualsIgnoreCase("/a.bin", JoinPath("", DecodeNameAsWritten(raw)))
  {
    var raw: seq<Byte> := [65, 46, 66, 73, 78, 59, 49];
    DecodeExample(raw);
    CaseExample();
    AsWrittenDecodingMissesVersionedNames("/a.bin", "", raw);
  }

  lemma CaseExample()
    ensures EqualsIgnoreCase("/a.bin", JoinPath("", "A.BIN"))
  {
    assert JoinPath("", "A.BIN") == "/A.BIN";
  }

  lemma DecodeExample(raw: seq<Byte>)
    requires raw == [65, 46, 66, 73, 78, 59, 49]
    ensures StrippedLength(raw) < |raw|
    ensures DecodeName(raw) == "A.BIN" && DecodeNameAsWritten(raw) == "A.BIN\01"
  {
    assert StrippedLength(raw) == 5;
    var d, w := DecodeName(raw), DecodeNameAsWritten(raw);
    assert d[0] == 'A' && d[1] == '.' && d[2] == 'B' && d[3] == 'I' && d[4] == 'N';
    assert w[0] == 'A' && w[1] == '.' && w[2] == 'B' && w[3] == 'I' && w[4] == 'N' && w[5] == 0 as char && w[6] == '1';
  }
}
