/** The in-memory image and its fixed-width fields.

    ISO 9660 stores most 32-bit numbers twice, once little-endian and once
    big-endian (section 7.3.3 of ECMA-119). This module gives the byte type,
    the 32-bit unsigned type with the program's wrap-around, little- and
    big-endian reads and writes, and the program's `ChangeEndian`. */
module ByteBuffer {
  import opened Outcomes

  const TwoTo32: int := 0x1_0000_0000
  const TwoTo31: int := 0x8000_0000

  type Byte = b: int | 0 <= b < 256
  type U32 = n: int | 0 <= n < 0x1_0000_0000

  /** A span of bytes; its length is a .NET `int`, so it stays below 2^31. */
  type Image = s: seq<Byte> | |s| < 0x8000_0000

  /** The `(uint)` conversion: reduction modulo 2^32 (two's complement low bits). */
  function Wrap32(x: int): (r: U32)
    ensures 0 <= x < TwoTo32 ==> r == x
    ensures (r - x) % TwoTo32 == 0
  {
    x % TwoTo32
  }

  /** The `(int)` conversion of a 64-bit or unsigned value: the low 32 bits read as two's complement. */
  function ToInt32(x: int): (r: int)
    ensures -TwoTo31 <= r < TwoTo31
    ensures Wrap32(r) == Wrap32(x)
    ensures -TwoTo31 <= x < TwoTo31 ==> r == x
  {
    var w := Wrap32(x);
    if w < TwoTo31 then w else w - TwoTo32
  }

  /** The four bytes of `v` as `BitConverter.GetBytes` lays them out on a little-endian machine. */
  function LeBytes(v: U32): (b: seq<Byte>)
    ensures |b| == 4
  {
    [v % 256, (v / 256) % 256, (v / 65536) % 256, v / 16777216]
  }

  function Reverse4(b: seq<Byte>): (r: seq<Byte>)
    requires |b| == 4
    ensures |r| == 4
    ensures forall k :: 0 <= k < 4 ==> r[k] == b[3 - k]
  {
    [b[3], b[2], b[1], b[0]]
  }

  /** `BitConverter.ToUInt32` of the four bytes at `off`. */
  function LE32(s: seq<Byte>, off: int): U32
    requires 0 <= off && off + 4 <= |s|
  {
    s[off] as int + 256 * s[off + 1] as int + 65536 * s[off + 2] as int + 16777216 * s[off + 3] as int
  }

  /** The big-endian reading of the four bytes at `off`. */
  function BE32(s: seq<Byte>, off: int): U32
    requires 0 <= off && off + 4 <= |s|
  {
    16777216 * s[off] as int + 65536 * s[off + 1] as int + 256 * s[off + 2] as int + s[off + 3] as int
  }

  /** Reading back the bytes of a value gives the value. */
  lemma LeBytesRoundTrip(v: U32)
    ensures LE32(LeBytes(v), 0) == v
  {
    var b := LeBytes(v);
    assert v == v % 256 + 256 * (v / 256);
    assert v / 256 == (v / 256) % 256 + 256 * (v / 65536);
    assert v / 65536 == (v / 65536) % 256 + 256 * (v / 16777216);
  }

  /** Four bytes are determined by the value they encode. */
  lemma LE32RoundTrip(s: seq<Byte>, off: int)
    requires 0 <= off && off + 4 <= |s|
    ensures LeBytes(LE32(s, off)) == s[off..off + 4]
  {
    var v := LE32(s, off);
    var r2 := s[off + 2] as int + 256 * s[off + 3] as int;
    var r1 := s[off + 1] as int + 256 * r2;
    DivideBy(v, 256, r1, s[off]);
    DivideBy(v, 65536, r2, s[off] as int + 256 * s[off + 1] as int);
    DivideBy(v, 16777216, s[off + 3], s[off] as int + 256 * s[off + 1] as int + 65536 * s[off + 2] as int);
    DivideBy(r1, 256, r2, s[off + 1]);
    DivideBy(r2, 256, s[off + 3], s[off + 2]);
  }

  /** Quotient and remainder are determined by `v == q * d + r` with `0 <= r < d`. */
  lemma DivideBy(v: int, d: int, q: int, r: int)
    requires d == 256 || d == 65536 || d == 16777216
    requires 0 <= r < d && v == q * d + r
    ensures v / d == q && v % d == r
  {
  }

  /** The program's `ChangeEndian`: take the bytes, reverse them, read them back. */
  function ChangeEndian(v: U32): (r: U32)
    ensures LeBytes(r) == Reverse4(LeBytes(v))
  {
    var r := LE32(Reverse4(LeBytes(v)), 0);
    LE32RoundTrip(Reverse4(LeBytes(v)), 0);
    assert Reverse4(LeBytes(v))[0..4] == Reverse4(LeBytes(v));
    r
  }

  /** `ChangeEndian` undoes itself. */
  lemma ChangeEndianInvolution(v: U32)
    ensures ChangeEndian(ChangeEndian(v)) == v
  {
    var w := ChangeEndian(ChangeEndian(v));
    assert LeBytes(w) == Reverse4(Reverse4(LeBytes(v)));
    assert Reverse4(Reverse4(LeBytes(v))) == LeBytes(v);
    LeBytesRoundTrip(w);
    LeBytesRoundTrip(v);
  }

  /** The big-endian reading of a field is the `ChangeEndian` of its little-endian reading. */
  lemma BE32IsChangeEndian(s: seq<Byte>, off: int)
    requires 0 <= off && off + 4 <= |s|
    ensures BE32(s, off) == ChangeEndian(LE32(s, off))
  {
    LE32RoundTrip(s, off);
    var rev := Reverse4(s[off..off + 4]);
    assert LeBytes(ChangeEndian(LE32(s, off))) == rev;
    LeBytesRoundTrip(ChangeEndian(LE32(s, off)));
  }

  /** Overwrite `b` at `off`; everything else stays. */
  function Put(s: Image, off: int, b: seq<Byte>): (r: Image)
    requires 0 <= off && off + |b| <= |s|
    ensures |r| == |s|
    ensures r[off..off + |b|] == b
    ensures forall k :: 0 <= k < |s| && !(off <= k < off + |b|) ==> r[k] == s[k]
  {
    s[..off] + b + s[off + |b|..]
  }

  /** Write `v` little-endian at `off`. */
  function PutLE32(s: Image, off: int, v: U32): (r: Image)
    requires 0 <= off && off + 4 <= |s|
    ensures |r| == |s|
    ensures LE32(r, off) == v
    ensures forall k :: 0 <= k < |s| && !(off <= k < off + 4) ==> r[k] == s[k]
  {
    var r := Put(s, off, LeBytes(v));
    LeBytesRoundTrip(v);
    assert LE32(r, off) == LE32(r[off..off + 4], 0);
    r
  }

  /** Write `v` big-endian at `off`: the little-endian bytes of `ChangeEndian(v)`, as the program does. */
  function PutBE32(s: Image, off: int, v: U32): (r: Image)
    requires 0 <= off && off + 4 <= |s|
    ensures |r| == |s|
    ensures BE32(r, off) == v
    ensures LE32(r, off) == ChangeEndian(v)
    ensures forall k :: 0 <= k < |s| && !(off <= k < off + 4) ==> r[k] == s[k]
  {
    var r := PutLE32(s, off, ChangeEndian(v));
    BE32IsChangeEndian(r, off);
    ChangeEndianInvolution(v);
    r
  }

  /** Write both copies of a both-byte-order field: little-endian at `off`, big-endian at `off + 4`. */
  function PutBoth32(s: Image, off: int, v: U32): (r: Image)
    requires 0 <= off && off + 8 <= |s|
    ensures |r| == |s|
    ensures LE32(r, off) == v && BE32(r, off + 4) == v
    ensures forall k :: 0 <= k < |s| && !(off <= k < off + 8) ==> r[k] == s[k]
  {
    var a := PutLE32(s, off, v);
    var r := PutBE32(a, off + 4, v);
    assert LE32(r, off) == LE32(a, off);
    r
  }

  /** `BitConverter.ToUInt32(span.Slice(off, 4))`: throws when the slice leaves the span. */
  function ReadLE32(s: Image, off: int): (r: Result<U32>)
    ensures r.Ok? <==> 0 <= off && off + 4 <= |s|
    ensures r.Ok? ==> LeBytes(r.value) == s[off..off + 4]
  {
    if 0 <= off && off + 4 <= |s| then
      LE32RoundTrip(s, off);
      Ok(LE32(s, off))
    else Err(OutOfRange)
  }

  /** Eight indexed byte assignments `span[off + i] = ...`: throw when an index leaves the span. */
  function TryPutBoth32(s: Image, off: int, v: U32): (r: Result<Image>)
    ensures r.Ok? <==> 0 <= off && off + 8 <= |s|
    ensures r.Ok? ==> |r.value| == |s| && LE32(r.value, off) == v && BE32(r.value, off + 4) == v
    ensures r.Ok? ==> forall k :: 0 <= k < |s| && !(off <= k < off + 8) ==> r.value[k] == s[k]
  {
    if 0 <= off && off + 8 <= |s| then Ok(PutBoth32(s, off, v)) else Err(OutOfRange)
  }

  /** A four-byte field reads the same in two images that agree on its bytes. */
  lemma FieldFrame(a: seq<Byte>, b: seq<Byte>, off: int)
    requires 0 <= off && off + 4 <= |a| && off + 4 <= |b|
    requires forall k :: off <= k < off + 4 ==> a[k] == b[k]
    ensures LE32(a, off) == LE32(b, off) && BE32(a, off) == BE32(b, off)
  {
    assert a[off] == b[off] && a[off + 1] == b[off + 1] && a[off + 2] == b[off + 2] && a[off + 3] == b[off + 3];
  }

  /** An image after a shift pass, with the positions of the entries the pass rewrote in
      the order it rewrote them. */
  datatype Patched = Patched(image: Image, log: seq<nat>)

  /** True when `a` and `b` agree everywhere except inside `[lo, hi)`. */
  predicate SameOutside(a: seq<Byte>, b: seq<Byte>, lo: int, hi: int)
  {
    |a| == |b| && forall k :: 0 <= k < |a| && !(lo <= k < hi) ==> a[k] == b[k]
  }

  /** True when `k` lies in none of the windows `[p + lo, p + hi)` for `p` in `log`. */
  predicate OutsideAll(k: int, log: seq<nat>, lo: int, hi: int)
  {
    forall j :: 0 <= j < |log| ==> !(log[j] + lo <= k < log[j] + hi)
  }

  /** True when `a` and `b` agree everywhere except inside the windows of `log`. */
  predicate SameOutsideWindows(a: seq<Byte>, b: seq<Byte>, log: seq<nat>, lo: int, hi: int)
  {
    |a| == |b| && forall k :: 0 <= k < |a| && OutsideAll(k, log, lo, hi) ==> a[k] == b[k]
  }

  /** Frames compose: changes confined to the windows of two logs are confined to the windows of their concatenation. */
  lemma SameOutsideWindowsTrans(a: seq<Byte>, b: seq<Byte>, c: seq<Byte>, l1: seq<nat>, l2: seq<nat>, lo: int, hi: int)
    requires SameOutsideWindows(a, b, l1, lo, hi)
    requires SameOutsideWindows(b, c, l2, lo, hi)
    ensures SameOutsideWindows(a, c, l1 + l2, lo, hi)
  {
    forall k | 0 <= k < |a| && OutsideAll(k, l1 + l2, lo, hi)
      ensures a[k] == c[k]
    {
      forall j | 0 <= j < |l1|
        ensures !(l1[j] + lo <= k < l1[j] + hi)
      {
        assert (l1 + l2)[j] == l1[j];
      }
      forall j | 0 <= j < |l2|
        ensures !(l2[j] + lo <= k < l2[j] + hi)
      {
        assert (l1 + l2)[|l1| + j] == l2[j];
      }
    }
  }
}
