/** verifyCanonicalZipLayout (tools/archivepack/verify.go): the offset arithmetic that must tile the whole file.
    Record formats follow sections 4.3.7, 4.3.9, 4.3.12 and 4.3.16 of PKWARE APPNOTE.TXT. */
module ZipLayout {
  import opened Bytes
  import opened Entries

  const MAX_UINT16: nat := 0xFFFF
  const MAX_UINT32: nat := 0xFFFF_FFFF

  // ----- little-endian integers

  function Le16(v: nat): (s: text)
    ensures |s| == 2
  {
    [v % 256, v / 256 % 256]
  }

  function Le32(v: nat): (s: text)
    ensures |s| == 4
  {
    [v % 256, v / 256 % 256, v / 0x1_0000 % 256, v / 0x100_0000 % 256]
  }

  function U16(s: text): nat
    requires |s| == 2
  {
    var low: int, high: int := s[0], s[1];
    low + 256 * high
  }

  function U32(s: text): nat
    requires |s| == 4
  {
    U16(s[..2]) + 0x1_0000 * U16(s[2..])
  }

  lemma U16Exact(s: text, v: nat)
    requires |s| == 2 && v <= MAX_UINT16
    ensures U16(s) == v <==> s == Le16(v)
    ensures U16(s) <= MAX_UINT16
  {
    if U16(s) == v {
      assert s == [s[0], s[1]];
    }
  }

  lemma Divide256(q: nat, r: nat)
    requires r < 256
    ensures (256 * q + r) / 256 == q && (256 * q + r) % 256 == r
  {
  }

  lemma Le32Halves(v: nat)
    requires v <= MAX_UINT32
    ensures Le32(v) == Le16(v % 0x1_0000) + Le16(v / 0x1_0000)
  {
    var low, high := v % 0x1_0000, v / 0x1_0000;
    var b0, b1, b2, b3 := low % 256, low / 256, high % 256, high / 256;
    Divide256(256 * high + b1, b0);
    Divide256(high, b1);
    Divide256(b3, b2);
    assert v / 256 == 256 * high + b1 && v / 0x100_0000 == b3;
  }

  lemma HalvesExact(low: nat, high: nat, v: nat)
    requires low <= MAX_UINT16
    ensures low + 0x1_0000 * high == v <==> low == v % 0x1_0000 && high == v / 0x1_0000
  {
  }

  lemma U32Exact(s: text, v: nat)
    requires |s| == 4 && v <= MAX_UINT32
    ensures U32(s) == v <==> s == Le32(v)
    ensures U32(s) <= MAX_UINT32
  {
    var low, high := v % 0x1_0000, v / 0x1_0000;
    U16Exact(s[..2], low);
    U16Exact(s[2..], high);
    HalvesExact(U16(s[..2]), U16(s[2..]), v);
    Le32Halves(v);
    Halves(s, 2);
    SplitEqual(s[..2], s[2..], Le16(low), Le16(high));
  }

  // ----- the canonical records

  type uint32 = v: nat | v <= MAX_UINT32

  /** Go's uint32(v) of a non-negative value. */
  function ToUint32(v: nat): uint32 {
    v % 0x1_0000_0000
  }

  /** What archive/zip reports about one entry; dataOffset is None when the reader fails to find it. */
  datatype ZipFile = ZipFile(compressed: nat, uncompressed: nat, crc: uint32, dataOffset: Option<int>)

  /** The extended-timestamp field for 1980-01-01T00:00:00Z. */
  const EXTRA: text := Le16(0x5455) + Le16(5) + [1] + Le32(315532800)

  function LocalHeader(nameLength: nat): (h: text)
    ensures |h| == 30
  {
    Le32(0x04034b50) + Le16(20) + Le16(8) + Le16(8) + Le16(0) + Le16(0x21)
    + Le32(0) + Le32(0) + Le32(0) + Le16(nameLength) + Le16(9)
  }

  function Descriptor(file: ZipFile): (d: text)
    ensures |d| == 16
  {
    Le32(0x08074b50) + Le32(file.crc) + Le32(file.compressed) + Le32(file.uncompressed)
  }

  /** (0o100000 | perm) << 16. */
  function ExternalMode(mode: nat): nat {
    (0x8000 + mode % 512) * 0x1_0000
  }

  const CENTRAL_START: text :=
    Le32(0x02014b50) + Le16(0x314) + Le16(20) + Le16(8) + Le16(8) + Le16(0) + Le16(0x21)

  function CentralNumbers(file: ZipFile, nameLength: nat): text {
    Le32(file.crc) + Le32(file.compressed) + Le32(file.uncompressed) + Le16(nameLength) + Le16(9)
  }

  function CentralEnd(mode: nat, offset: nat): text {
    Le16(0) + Le16(0) + Le16(0) + Le32(ExternalMode(mode)) + Le32(offset)
  }

  function CentralHeader(spec: InputSpec, file: ZipFile, offset: nat): (h: text)
    ensures |h| == 46
  {
    CENTRAL_START + CentralNumbers(file, |spec.name|) + CentralEnd(spec.mode, offset)
  }

  function EndRecord(count: nat, centralSize: nat, centralOffset: nat): (e: text)
    ensures |e| == 22
  {
    Le32(0x06054b50) + Le16(0) + Le16(0) + Le16(count) + Le16(count)
    + Le32(centralSize) + Le32(centralOffset) + Le16(0)
  }

  function LocalPart(spec: InputSpec, file: ZipFile, data: seq<byte>): (part: text)
    ensures |data| == file.compressed ==> |part| == LocalSize(spec, file)
  {
    LocalHeader(|spec.name|) + (spec.name + EXTRA) + (data + Descriptor(file))
  }

  function LocalSize(spec: InputSpec, file: ZipFile): nat {
    30 + |spec.name| + 9 + file.compressed + 16
  }

  function Locals(specs: seq<InputSpec>, files: seq<ZipFile>, datas: seq<seq<byte>>): text
    requires |specs| == |files| == |datas|
  {
    if specs == [] then [] else LocalPart(specs[0], files[0], datas[0]) + Locals(specs[1..], files[1..], datas[1..])
  }

  function Centrals(specs: seq<InputSpec>, files: seq<ZipFile>, offset: nat): text
    requires |specs| == |files|
  {
    if specs == [] then []
    else CentralHeader(specs[0], files[0], offset) + (specs[0].name + EXTRA)
         + Centrals(specs[1..], files[1..], offset + LocalSize(specs[0], files[0]))
  }

  /** Local parts, central headers, end record, and nothing else. */
  function Layout(specs: seq<InputSpec>, files: seq<ZipFile>, datas: seq<seq<byte>>): text
    requires |specs| == |files| == |datas|
  {
    var locals, centrals := Locals(specs, files, datas), Centrals(specs, files, 0);
    locals + centrals + EndRecord(|specs|, |centrals|, |locals|)
  }

  /** Every number of the entry fits its field, and the reader found the data where the layout puts it. */
  predicate EntryFits(spec: InputSpec, file: ZipFile, offset: nat) {
    |spec.name| <= MAX_UINT16
    && file.compressed <= MAX_UINT32 && file.uncompressed <= MAX_UINT32 && offset <= MAX_UINT32
    && file.dataOffset == Some(offset + 39 + |spec.name|)
  }

  predicate EntriesFit(specs: seq<InputSpec>, files: seq<ZipFile>, offset: nat)
    requires |specs| == |files|
  {
    specs != [] ==> EntryFits(specs[0], files[0], offset)
                    && EntriesFit(specs[1..], files[1..], offset + LocalSize(specs[0], files[0]))
  }

  predicate Carries(files: seq<ZipFile>, datas: seq<seq<byte>>) {
    |files| == |datas| && forall i :: 0 <= i < |files| ==> |datas[i]| == files[i].compressed
  }

  /** The archive is the canonical layout of these entries around this compressed data. */
  ghost predicate LaidOut(archive: seq<byte>, specs: seq<InputSpec>, files: seq<ZipFile>, datas: seq<seq<byte>>) {
    |specs| == |files| && |specs| <= MAX_UINT16 && Carries(files, datas) && EntriesFit(specs, files, 0)
    && |Locals(specs, files, datas)| <= MAX_UINT32 && |Centrals(specs, files, 0)| <= MAX_UINT32
    && archive == Layout(specs, files, datas)
  }

  // ----- fixed parts, field by field

  lemma Split3<T>(a: seq<T>, b: seq<T>, c: seq<T>, x: seq<T>, y: seq<T>, z: seq<T>)
    requires |a| == |x| && |b| == |y|
    ensures a + b + c == x + y + z <==> a == x && b == y && c == z
  {
    SplitEqual(a + b, c, x + y, z);
    SplitEqual(a, b, x, y);
  }

  lemma ToUint32Exact(v: nat)
    ensures v <= MAX_UINT32 ==> ToUint32(v) == v
  {
  }

  function At(s: text, from: nat, size: nat): text
    requires from + size <= |s|
  {
    s[from..from + size]
  }

  predicate LocalFields(h: text, nameLength: nat)
    requires |h| == 30
  {
    U32(At(h, 0, 4)) == 0x04034b50 && U16(At(h, 4, 2)) == 20 && U16(At(h, 6, 2)) == 8 && U16(At(h, 8, 2)) == 8
    && U16(At(h, 10, 2)) == 0 && U16(At(h, 12, 2)) == 0x21
    && U32(At(h, 14, 4)) == 0 && U32(At(h, 18, 4)) == 0 && U32(At(h, 22, 4)) == 0
    && U16(At(h, 26, 2)) == nameLength && U16(At(h, 28, 2)) == 9
  }

  lemma LocalFieldsExact(h: text, nameLength: nat)
    requires |h| == 30 && nameLength <= MAX_UINT16
    ensures LocalFields(h, nameLength) <==> h == LocalHeader(nameLength)
  {
    U32Exact(At(h, 0, 4), 0x04034b50);
    U16Exact(At(h, 4, 2), 20);
    U16Exact(At(h, 6, 2), 8);
    U16Exact(At(h, 8, 2), 8);
    U16Exact(At(h, 10, 2), 0);
    U16Exact(At(h, 12, 2), 0x21);
    U32Exact(At(h, 14, 4), 0);
    U32Exact(At(h, 18, 4), 0);
    U32Exact(At(h, 22, 4), 0);
    U16Exact(At(h, 26, 2), nameLength);
    U16Exact(At(h, 28, 2), 9);
    var a := At(h, 0, 4) + At(h, 4, 2) + At(h, 6, 2) + At(h, 8, 2) + At(h, 10, 2) + At(h, 12, 2);
    var x := Le32(0x04034b50) + Le16(20) + Le16(8) + Le16(8) + Le16(0) + Le16(0x21);
    var b, c, d := At(h, 14, 4), At(h, 18, 4), At(h, 22, 4);
    var e, f := At(h, 26, 2), At(h, 28, 2);
    assert h == a + b + c + d + e + f;
    Split3(a + b + c + d, e, f, x + Le32(0) + Le32(0) + Le32(0), Le16(nameLength), Le16(9));
    Split3(a + b, c, d, x + Le32(0), Le32(0), Le32(0));
    SplitEqual(a, b, x, Le32(0));
    Split3(At(h, 0, 4) + At(h, 4, 2) + At(h, 6, 2) + At(h, 8, 2), At(h, 10, 2), At(h, 12, 2),
           Le32(0x04034b50) + Le16(20) + Le16(8) + Le16(8), Le16(0), Le16(0x21));
    Split3(At(h, 0, 4) + At(h, 4, 2), At(h, 6, 2), At(h, 8, 2), Le32(0x04034b50) + Le16(20), Le16(8), Le16(8));
    SplitEqual(At(h, 0, 4), At(h, 4, 2), Le32(0x04034b50), Le16(20));
  }

  predicate DescriptorFields(d: text, file: ZipFile)
    requires |d| == 16
  {
    U32(At(d, 0, 4)) == 0x08074b50 && U32(At(d, 4, 4)) == file.crc
    && U32(At(d, 8, 4)) == ToUint32(file.compressed) && U32(At(d, 12, 4)) == ToUint32(file.uncompressed)
  }

  lemma DescriptorFieldsExact(d: text, file: ZipFile)
    requires |d| == 16 && file.compressed <= MAX_UINT32 && file.uncompressed <= MAX_UINT32
    ensures DescriptorFields(d, file) <==> d == Descriptor(file)
  {
    U32Exact(At(d, 0, 4), 0x08074b50);
    U32Exact(At(d, 4, 4), file.crc);
    U32Exact(At(d, 8, 4), file.compressed);
    U32Exact(At(d, 12, 4), file.uncompressed);
    ToUint32Exact(file.compressed);
    ToUint32Exact(file.uncompressed);
    var a, b, c, e := At(d, 0, 4), At(d, 4, 4), At(d, 8, 4), At(d, 12, 4);
    assert d == a + b + c + e;
    SplitEqual(a + b + c, e, Le32(0x08074b50) + Le32(file.crc) + Le32(file.compressed), Le32(file.uncompressed));
    Split3(a, b, c, Le32(0x08074b50), Le32(file.crc), Le32(file.compressed));
  }

  predicate CentralFields(h: text, spec: InputSpec, file: ZipFile, offset: uint32)
    requires |h| == 46
  {
    U32(At(h, 0, 4)) == 0x02014b50 && U16(At(h, 4, 2)) == 0x314 && U16(At(h, 6, 2)) == 20
    && U16(At(h, 8, 2)) == 8 && U16(At(h, 10, 2)) == 8 && U16(At(h, 12, 2)) == 0 && U16(At(h, 14, 2)) == 0x21
    && U32(At(h, 16, 4)) == file.crc && U32(At(h, 20, 4)) == ToUint32(file.compressed)
    && U32(At(h, 24, 4)) == ToUint32(file.uncompressed)
    && U16(At(h, 28, 2)) == |spec.name| && U16(At(h, 30, 2)) == 9
    && U16(At(h, 32, 2)) == 0 && U16(At(h, 34, 2)) == 0 && U16(At(h, 36, 2)) == 0
    && U32(At(h, 38, 4)) == ExternalMode(spec.mode) && U32(At(h, 42, 4)) == offset
  }

  lemma CentralStartExact(h: text)
    requires |h| == 46
    ensures (U32(At(h, 0, 4)) == 0x02014b50 && U16(At(h, 4, 2)) == 0x314 && U16(At(h, 6, 2)) == 20
             && U16(At(h, 8, 2)) == 8 && U16(At(h, 10, 2)) == 8 && U16(At(h, 12, 2)) == 0 && U16(At(h, 14, 2)) == 0x21)
            <==> At(h, 0, 16) == CENTRAL_START
  {
    U32Exact(At(h, 0, 4), 0x02014b50);
    U16Exact(At(h, 4, 2), 0x314);
    U16Exact(At(h, 6, 2), 20);
    U16Exact(At(h, 8, 2), 8);
    U16Exact(At(h, 10, 2), 8);
    U16Exact(At(h, 12, 2), 0);
    U16Exact(At(h, 14, 2), 0x21);
    assert At(h, 0, 16) == At(h, 0, 4) + At(h, 4, 2) + At(h, 6, 2) + At(h, 8, 2) + At(h, 10, 2) + At(h, 12, 2) + At(h, 14, 2);
  }

  lemma CentralNumbersExact(h: text, file: ZipFile, nameLength: nat)
    requires |h| == 46 && nameLength <= MAX_UINT16
    requires file.compressed <= MAX_UINT32 && file.uncompressed <= MAX_UINT32
    ensures (U32(At(h, 16, 4)) == file.crc && U32(At(h, 20, 4)) == ToUint32(file.compressed)
             && U32(At(h, 24, 4)) == ToUint32(file.uncompressed)
             && U16(At(h, 28, 2)) == nameLength && U16(At(h, 30, 2)) == 9)
            <==> At(h, 16, 16) == CentralNumbers(file, nameLength)
  {
    U32Exact(At(h, 16, 4), file.crc);
    U32Exact(At(h, 20, 4), file.compressed);
    U32Exact(At(h, 24, 4), file.uncompressed);
    U16Exact(At(h, 28, 2), nameLength);
    U16Exact(At(h, 30, 2), 9);
    ToUint32Exact(file.compressed);
    ToUint32Exact(file.uncompressed);
    var a, b, c, d, e := At(h, 16, 4), At(h, 20, 4), At(h, 24, 4), At(h, 28, 2), At(h, 30, 2);
    var x, y, z := Le32(file.crc), Le32(file.compressed), Le32(file.uncompressed);
    assert At(h, 16, 16) == a + b + c + d + e;
    Split3(a + b + c, d, e, x + y + z, Le16(nameLength), Le16(9));
    Split3(a, b, c, x, y, z);
  }

  lemma CentralEndExact(h: text, mode: nat, offset: uint32)
    requires |h| == 46
    ensures (U16(At(h, 32, 2)) == 0 && U16(At(h, 34, 2)) == 0 && U16(At(h, 36, 2)) == 0
             && U32(At(h, 38, 4)) == ExternalMode(mode) && U32(At(h, 42, 4)) == offset)
            <==> At(h, 32, 14) == CentralEnd(mode, offset)
  {
    U16Exact(At(h, 32, 2), 0);
    U16Exact(At(h, 34, 2), 0);
    U16Exact(At(h, 36, 2), 0);
    U32Exact(At(h, 38, 4), ExternalMode(mode));
    U32Exact(At(h, 42, 4), offset);
    var a, b, c, d, e := At(h, 32, 2), At(h, 34, 2), At(h, 36, 2), At(h, 38, 4), At(h, 42, 4);
    assert At(h, 32, 14) == a + b + c + d + e;
    Split3(a + b + c, d, e, Le16(0) + Le16(0) + Le16(0), Le32(ExternalMode(mode)), Le32(offset));
    Split3(a, b, c, Le16(0), Le16(0), Le16(0));
  }

  lemma CentralFieldsExact(h: text, spec: InputSpec, file: ZipFile, offset: uint32)
    requires |h| == 46 && |spec.name| <= MAX_UINT16
    requires file.compressed <= MAX_UINT32 && file.uncompressed <= MAX_UINT32
    ensures CentralFields(h, spec, file, offset) <==> h == CentralHeader(spec, file, offset)
  {
    CentralStartExact(h);
    CentralNumbersExact(h, file, |spec.name|);
    CentralEndExact(h, spec.mode, offset);
    var a, b, c := At(h, 0, 16), At(h, 16, 16), At(h, 32, 14);
    var x, y, z := CENTRAL_START, CentralNumbers(file, |spec.name|), CentralEnd(spec.mode, offset);
    assert h == a + b + c;
    SplitEqual(a, b, x, y);
    SplitEqual(a + b, c, x + y, z);
  }

  predicate EndFields(e: text, count: nat)
    requires |e| == 22
  {
    U32(At(e, 0, 4)) == 0x06054b50 && U16(At(e, 4, 2)) == 0 && U16(At(e, 6, 2)) == 0
    && U16(At(e, 8, 2)) == count && U16(At(e, 10, 2)) == count && U16(At(e, 20, 2)) == 0
  }

  lemma EndFieldsExact(e: text, count: nat, centralSize: nat, centralOffset: nat)
    requires |e| == 22 && count <= MAX_UINT16 && centralSize <= MAX_UINT32 && centralOffset <= MAX_UINT32
    ensures EndFields(e, count) && U32(At(e, 12, 4)) == centralSize && U32(At(e, 16, 4)) == centralOffset
       <==> e == EndRecord(count, centralSize, centralOffset)
  {
    U32Exact(At(e, 0, 4), 0x06054b50);
    U16Exact(At(e, 4, 2), 0);
    U16Exact(At(e, 6, 2), 0);
    U16Exact(At(e, 8, 2), count);
    U16Exact(At(e, 10, 2), count);
    U32Exact(At(e, 12, 4), centralSize);
    U32Exact(At(e, 16, 4), centralOffset);
    U16Exact(At(e, 20, 2), 0);
    assert e == At(e, 0, 4) + At(e, 4, 2) + At(e, 6, 2) + At(e, 8, 2) + At(e, 10, 2)
                + At(e, 12, 4) + At(e, 16, 4) + At(e, 20, 2);
  }

  // ----- the parts in place

  /** The part of one entry stands at an offset, around whatever data lies between name and descriptor. */
  predicate LocalAt(archive: seq<byte>, offset: nat, spec: InputSpec, file: ZipFile) {
    var n := |spec.name|;
    offset + LocalSize(spec, file) <= |archive|
    && At(archive, offset, 30) == LocalHeader(n)
    && At(archive, offset + 30, n + 9) == spec.name + EXTRA
    && At(archive, offset + 39 + n + file.compressed, 16) == Descriptor(file)
  }

  predicate LocalsAt(archive: seq<byte>, offset: nat, specs: seq<InputSpec>, files: seq<ZipFile>)
    requires |specs| == |files|
    decreases |specs|
  {
    specs != [] ==> LocalAt(archive, offset, specs[0], files[0])
                    && LocalsAt(archive, offset + LocalSize(specs[0], files[0]), specs[1..], files[1..])
  }

  /** The data between the fixed parts. */
  function DatasAt(archive: seq<byte>, offset: nat, specs: seq<InputSpec>, files: seq<ZipFile>): seq<seq<byte>>
    requires |specs| == |files| && LocalsAt(archive, offset, specs, files)
    decreases |specs|
  {
    if specs == [] then []
    else [At(archive, offset + 39 + |specs[0].name|, files[0].compressed)]
         + DatasAt(archive, offset + LocalSize(specs[0], files[0]), specs[1..], files[1..])
  }

  function LocalsSize(specs: seq<InputSpec>, files: seq<ZipFile>): nat
    requires |specs| == |files|
  {
    if specs == [] then 0 else LocalSize(specs[0], files[0]) + LocalsSize(specs[1..], files[1..])
  }

  lemma LocalAtIsPart(archive: seq<byte>, offset: nat, spec: InputSpec, file: ZipFile, data: seq<byte>)
    requires offset + LocalSize(spec, file) <= |archive| && |data| == file.compressed
    ensures LocalAt(archive, offset, spec, file) && At(archive, offset + 39 + |spec.name|, file.compressed) == data
       <==> At(archive, offset, LocalSize(spec, file)) == LocalPart(spec, file, data)
  {
    var n, c := |spec.name|, file.compressed;
    var whole := At(archive, offset, LocalSize(spec, file));
    var a, b := At(archive, offset, 30), At(archive, offset + 30, n + 9);
    var d, e := At(archive, offset + 39 + n, c), At(archive, offset + 39 + n + c, 16);
    assert whole == a + b + (d + e);
    SplitEqual(d, e, data, Descriptor(file));
    SplitEqual(a, b, LocalHeader(n), spec.name + EXTRA);
    SplitEqual(a + b, d + e, LocalHeader(n) + (spec.name + EXTRA), data + Descriptor(file));
  }

  lemma {:induction false} LocalsLength(specs: seq<InputSpec>, files: seq<ZipFile>, datas: seq<seq<byte>>)
    requires |specs| == |files| && Carries(files, datas)
    ensures |Locals(specs, files, datas)| == LocalsSize(specs, files)
  {
    if specs != [] {
      LocalsLength(specs[1..], files[1..], datas[1..]);
    }
  }

  /** The local parts stand one after the other from the offset on and carry these data. */
  ghost predicate LocalsCarry(archive: seq<byte>, offset: nat, specs: seq<InputSpec>, files: seq<ZipFile>, datas: seq<seq<byte>>)
    requires |specs| == |files|
  {
    offset <= |archive| && LocalsAt(archive, offset, specs, files) && DatasAt(archive, offset, specs, files) == datas
  }

  lemma {:induction false} LocalsAtIsConcatenation(archive: seq<byte>, offset: nat, specs: seq<InputSpec>,
                                                   files: seq<ZipFile>, datas: seq<seq<byte>>)
    requires |specs| == |files| && Carries(files, datas)
    ensures LocalsCarry(archive, offset, specs, files, datas) <==> StandsAt(archive, offset, Locals(specs, files, datas))
    decreases |specs|
  {
    if specs == [] {
      return;
    }
    var part, tail := LocalPart(specs[0], files[0], datas[0]), Locals(specs[1..], files[1..], datas[1..]);
    LocalsAtIsConcatenation(archive, offset + |part|, specs[1..], files[1..], datas[1..]);
    LocalsAtStep(archive, offset, specs, files, datas);
    Consecutive(archive, offset, part, tail);
    assert Locals(specs, files, datas) == part + tail;
  }

  lemma LocalsAtStep(archive: seq<byte>, offset: nat, specs: seq<InputSpec>, files: seq<ZipFile>, datas: seq<seq<byte>>)
    requires |specs| == |files| && Carries(files, datas) && specs != []
    ensures
      var part := LocalPart(specs[0], files[0], datas[0]);
      LocalsCarry(archive, offset, specs, files, datas)
      <==> StandsAt(archive, offset, part) && LocalsCarry(archive, offset + |part|, specs[1..], files[1..], datas[1..])
  {
    var size := LocalSize(specs[0], files[0]);
    if offset + size <= |archive| {
      LocalAtIsPart(archive, offset, specs[0], files[0], datas[0]);
      var data := At(archive, offset + 39 + |specs[0].name|, files[0].compressed);
      if LocalsAt(archive, offset + size, specs[1..], files[1..]) {
        ConsEqual(data, DatasAt(archive, offset + size, specs[1..], files[1..]), datas);
      }
    }
  }

  lemma ConsEqual<T>(x: T, rest: seq<T>, s: seq<T>)
    requires s != []
    ensures [x] + rest == s <==> x == s[0] && rest == s[1..]
  {
    assert s == [s[0]] + s[1..];
    assert ([x] + rest)[1..] == rest;
  }

  /** A concatenation stands at an offset exactly when its parts stand one after the other. */
  lemma AtSplit(archive: seq<byte>, offset: nat, size: nat, rest: nat, part: text, tail: text)
    requires |part| == size && |tail| == rest
    ensures offset + size + rest <= |archive| ==>
              (At(archive, offset, size + rest) == part + tail
               <==> At(archive, offset, size) == part && At(archive, offset + size, rest) == tail)
  {
    if offset + size + rest <= |archive| {
      assert At(archive, offset, size + rest) == At(archive, offset, size) + At(archive, offset + size, rest);
      SplitEqual(At(archive, offset, size), At(archive, offset + size, rest), part, tail);
    }
  }

  predicate CentralAt(archive: seq<byte>, position: nat, spec: InputSpec, file: ZipFile, offset: nat) {
    var n := |spec.name|;
    position + 55 + n <= |archive|
    && At(archive, position, 46) == CentralHeader(spec, file, offset)
    && At(archive, position + 46, n + 9) == spec.name + EXTRA
  }

  /** The headers of entries k and later, one after the other. */
  predicate CentralsAt(archive: seq<byte>, position: nat, specs: seq<InputSpec>, files: seq<ZipFile>, k: nat, offset: nat)
    requires |specs| == |files| && k <= |specs|
    decreases |specs| - k
  {
    k < |specs| ==>
      CentralAt(archive, position, specs[k], files[k], offset)
      && CentralsAt(archive, position + 55 + |specs[k].name|, specs, files, k + 1, offset + LocalSize(specs[k], files[k]))
  }

  function CentralsSize(specs: seq<InputSpec>, k: nat): nat
    requires k <= |specs|
    decreases |specs| - k
  {
    if k == |specs| then 0 else 55 + |specs[k].name| + CentralsSize(specs, k + 1)
  }

  lemma {:induction false} CentralsAtIsConcatenation(archive: seq<byte>, position: nat, specs: seq<InputSpec>,
                                                     files: seq<ZipFile>, k: nat, offset: nat)
    requires |specs| == |files| && k <= |specs|
    ensures |Centrals(specs[k..], files[k..], offset)| == CentralsSize(specs, k)
    ensures CentralsAt(archive, position, specs, files, k, offset) && position <= |archive|
       <==> StandsAt(archive, position, Centrals(specs[k..], files[k..], offset))
    decreases |specs| - k
  {
    if k < |specs| {
      var part := CentralHeader(specs[k], files[k], offset) + (specs[k].name + EXTRA);
      var next := offset + LocalSize(specs[k], files[k]);
      CentralsUnfold(specs, files, k, offset);
      CentralsAtIsConcatenation(archive, position + |part|, specs, files, k + 1, next);
      CentralAtIsPart(archive, position, specs[k], files[k], offset);
      Consecutive(archive, position, part, Centrals(specs[k + 1..], files[k + 1..], next));
    }
  }

  lemma CentralsUnfold(specs: seq<InputSpec>, files: seq<ZipFile>, k: nat, offset: nat)
    requires |specs| == |files| && k < |specs|
    ensures Centrals(specs[k..], files[k..], offset)
         == CentralHeader(specs[k], files[k], offset) + (specs[k].name + EXTRA)
            + Centrals(specs[k + 1..], files[k + 1..], offset + LocalSize(specs[k], files[k]))
  {
    assert specs[k..][1..] == specs[k + 1..] && files[k..][1..] == files[k + 1..];
  }

  predicate StandsAt(archive: seq<byte>, position: nat, s: text) {
    position + |s| <= |archive| && At(archive, position, |s|) == s
  }

  lemma Consecutive(archive: seq<byte>, position: nat, part: text, tail: text)
    ensures StandsAt(archive, position, part + tail)
       <==> StandsAt(archive, position, part) && StandsAt(archive, position + |part|, tail)
  {
    AtSplit(archive, position, |part|, |tail|, part, tail);
  }

  lemma CentralAtIsPart(archive: seq<byte>, position: nat, spec: InputSpec, file: ZipFile, offset: nat)
    ensures CentralAt(archive, position, spec, file, offset)
       <==> StandsAt(archive, position, CentralHeader(spec, file, offset) + (spec.name + EXTRA))
  {
    AtSplit(archive, position, 46, |spec.name| + 9, CentralHeader(spec, file, offset), spec.name + EXTRA);
  }

  // ----- the verifier

  function ReadAtExact(archive: seq<byte>, offset: int, size: int): (r: Option<seq<byte>>) {
    if offset < 0 || size < 0 then None
    else if size == 0 then Some([])
    else if offset + size > |archive| then None
    else Some(archive[offset..offset + size])
  }

  /** The declared lengths and bytes of a name followed by its extra field. */
  method CheckName(archive: seq<byte>, offset: nat, nameLength: nat, extraLength: nat, name: text) returns (ok: bool)
    ensures ok <==> nameLength == |name| && extraLength == 9
                    && offset + |name| + 9 <= |archive| && At(archive, offset, |name| + 9) == name + EXTRA
  {
    var nameAndExtra := ReadAtExact(archive, offset, nameLength + extraLength);
    if nameAndExtra.None? {
      return false;
    }
    var s := nameAndExtra.value;
    ok := s[..nameLength] == name && s[nameLength..] == EXTRA;
    Halves(s, nameLength);
    if nameLength == |name| {
      SplitEqual(s[..nameLength], s[nameLength..], name, EXTRA);
    }
  }

  /** The local header with its name and extra field: the offset of the data behind them. */
  method CheckLocalHeader(archive: seq<byte>, localOffset: nat, spec: InputSpec) returns (dataOffset: Option<nat>)
    ensures dataOffset.Some? <==> |spec.name| <= MAX_UINT16 && StandsAt(archive, localOffset, LocalHeader(|spec.name|))
                                  && StandsAt(archive, localOffset + 30, spec.name + EXTRA)
    ensures dataOffset.Some? ==> dataOffset.value == localOffset + 39 + |spec.name|
  {
    var header := ReadAtExact(archive, localOffset, 30);
    if header.None? {
      return None;
    }
    var h := header.value;
    if |spec.name| <= MAX_UINT16 {
      LocalFieldsExact(h, |spec.name|);
    }
    U16Exact(At(h, 26, 2), 0);
    var nameLength, extraLength := U16(At(h, 26, 2)), U16(At(h, 28, 2));
    if U32(At(h, 0, 4)) != 0x04034b50 || U16(At(h, 4, 2)) != 20 || U16(At(h, 6, 2)) != 8 || U16(At(h, 8, 2)) != 8
       || U16(At(h, 10, 2)) != 0 || U16(At(h, 12, 2)) != 0x21
       || U32(At(h, 14, 4)) != 0 || U32(At(h, 18, 4)) != 0 || U32(At(h, 22, 4)) != 0 {
      return None;
    }
    var named := CheckName(archive, localOffset + 30, nameLength, extraLength, spec.name);
    if !named {
      return None;
    }
    return Some(localOffset + 30 + nameLength + extraLength);
  }

  method CheckDescriptor(archive: seq<byte>, offset: nat, file: ZipFile) returns (ok: bool)
    requires file.compressed <= MAX_UINT32 && file.uncompressed <= MAX_UINT32
    ensures ok <==> StandsAt(archive, offset, Descriptor(file))
  {
    var descriptor := ReadAtExact(archive, offset, 16);
    if descriptor.None? {
      return false;
    }
    DescriptorFieldsExact(descriptor.value, file);
    ok := DescriptorFields(descriptor.value, file);
  }

  /** One pass of the first loop: the offset just behind the entry. */
  method CheckLocal(archive: seq<byte>, localOffset: nat, spec: InputSpec, file: ZipFile) returns (next: Option<nat>)
    ensures next.Some? <==> EntryFits(spec, file, localOffset) && LocalAt(archive, localOffset, spec, file)
    ensures next.Some? ==> next.value == localOffset + LocalSize(spec, file)
  {
    if file.compressed > MAX_UINT32 || file.uncompressed > MAX_UINT32 || localOffset > MAX_UINT32 {
      return None;
    }
    var dataOffset := CheckLocalHeader(archive, localOffset, spec);
    if dataOffset.None? || file.dataOffset != dataOffset {
      return None;
    }
    var descriptorOffset := dataOffset.value + file.compressed;
    var described := CheckDescriptor(archive, descriptorOffset, file);
    if !described {
      return None;
    }
    return Some(descriptorOffset + 16);
  }

  /** One pass of the second loop. */
  method CheckCentral(archive: seq<byte>, position: nat, spec: InputSpec, file: ZipFile, offset: uint32)
    returns (next: Option<nat>)
    requires file.compressed <= MAX_UINT32 && file.uncompressed <= MAX_UINT32 && |spec.name| <= MAX_UINT16
    ensures next.Some? <==> CentralAt(archive, position, spec, file, offset)
    ensures next.Some? ==> next.value == position + 55 + |spec.name|
  {
    var header := ReadAtExact(archive, position, 46);
    if header.None? {
      return None;
    }
    var h := header.value;
    CentralFieldsExact(h, spec, file, offset);
    var nameLength, extraLength := U16(At(h, 28, 2)), U16(At(h, 30, 2));
    if !(U32(At(h, 0, 4)) == 0x02014b50 && U16(At(h, 4, 2)) == 0x314 && U16(At(h, 6, 2)) == 20
         && U16(At(h, 8, 2)) == 8 && U16(At(h, 10, 2)) == 8 && U16(At(h, 12, 2)) == 0 && U16(At(h, 14, 2)) == 0x21
         && U32(At(h, 16, 4)) == file.crc && U32(At(h, 20, 4)) == ToUint32(file.compressed)
         && U32(At(h, 24, 4)) == ToUint32(file.uncompressed)
         && U16(At(h, 32, 2)) == 0 && U16(At(h, 34, 2)) == 0 && U16(At(h, 36, 2)) == 0
         && U32(At(h, 38, 4)) == ExternalMode(spec.mode) && U32(At(h, 42, 4)) == offset) {
      return None;
    }
    var named := CheckName(archive, position + 46, nameLength, extraLength, spec.name);
    if !named {
      return None;
    }
    return Some(position + 46 + nameLength + extraLength);
  }

  function OffsetOf(specs: seq<InputSpec>, files: seq<ZipFile>, k: nat): nat
    requires |specs| == |files| && k <= |specs|
  {
    if k == 0 then 0 else OffsetOf(specs, files, k - 1) + LocalSize(specs[k - 1], files[k - 1])
  }

  /** The layout stated by positions: what the two loops and the end record establish together. */
  ghost predicate Tiled(archive: seq<byte>, specs: seq<InputSpec>, files: seq<ZipFile>)
    requires |specs| == |files|
  {
    var locals, centrals := LocalsSize(specs, files), CentralsSize(specs, 0);
    |specs| <= MAX_UINT16 && locals <= MAX_UINT32 && centrals <= MAX_UINT32
    && locals + centrals + 22 == |archive|
    && EntriesFit(specs, files, 0) && LocalsAt(archive, 0, specs, files)
    && CentralsAt(archive, locals, specs, files, 0, 0)
    && At(archive, |archive| - 22, 22) == EndRecord(|specs|, centrals, locals)
  }

  lemma LaidOutIsTiled(archive: seq<byte>, specs: seq<InputSpec>, files: seq<ZipFile>, datas: seq<seq<byte>>)
    requires |specs| == |files| && Carries(files, datas)
    ensures LaidOut(archive, specs, files, datas)
       <==> Tiled(archive, specs, files) && DatasAt(archive, 0, specs, files) == datas
  {
    PartSizes(specs, files, datas);
    LayoutTiled(archive, specs, files, datas);
  }

  lemma PartSizes(specs: seq<InputSpec>, files: seq<ZipFile>, datas: seq<seq<byte>>)
    requires |specs| == |files| && Carries(files, datas)
    ensures |Locals(specs, files, datas)| == LocalsSize(specs, files) && |Centrals(specs, files, 0)| == CentralsSize(specs, 0)
  {
    LocalsLength(specs, files, datas);
    AllCentrals([], 0, specs, files);
  }

  lemma LayoutTiled(archive: seq<byte>, specs: seq<InputSpec>, files: seq<ZipFile>, datas: seq<seq<byte>>)
    requires |specs| == |files| && Carries(files, datas)
    ensures
      var locals, centrals := LocalsSize(specs, files), CentralsSize(specs, 0);
      archive == Layout(specs, files, datas)
      <==> locals + centrals + 22 == |archive|
           && LocalsAt(archive, 0, specs, files) && DatasAt(archive, 0, specs, files) == datas
           && CentralsAt(archive, locals, specs, files, 0, 0)
           && At(archive, |archive| - 22, 22) == EndRecord(|specs|, centrals, locals)
  {
    var end := EndRecord(|specs|, CentralsSize(specs, 0), LocalsSize(specs, files));
    LayoutParts(specs, files, datas);
    LayoutByParts(archive, specs, files, datas, end);
  }

  lemma LayoutParts(specs: seq<InputSpec>, files: seq<ZipFile>, datas: seq<seq<byte>>)
    requires |specs| == |files| && Carries(files, datas)
    ensures Layout(specs, files, datas)
         == Locals(specs, files, datas) + Centrals(specs, files, 0)
            + EndRecord(|specs|, CentralsSize(specs, 0), LocalsSize(specs, files))
  {
    PartSizes(specs, files, datas);
  }

  lemma LayoutByParts(archive: seq<byte>, specs: seq<InputSpec>, files: seq<ZipFile>, datas: seq<seq<byte>>, end: text)
    requires |specs| == |files| && Carries(files, datas)
    ensures
      var locals, centrals := LocalsSize(specs, files), CentralsSize(specs, 0);
      archive == Locals(specs, files, datas) + Centrals(specs, files, 0) + end
      <==> locals + centrals + |end| == |archive|
           && LocalsAt(archive, 0, specs, files) && DatasAt(archive, 0, specs, files) == datas
           && CentralsAt(archive, locals, specs, files, 0, 0)
           && At(archive, |archive| - |end|, |end|) == end
  {
    var locals, centrals := Locals(specs, files, datas), Centrals(specs, files, 0);
    LocalsLength(specs, files, datas);
    LocalsAtIsConcatenation(archive, 0, specs, files, datas);
    AllCentrals(archive, |locals|, specs, files);
    PartsInPlace(archive, locals, centrals, end,
                 LocalsCarry(archive, 0, specs, files, datas),
                 CentralsAt(archive, |locals|, specs, files, 0, 0));
  }

  /** The three parts in place, each known under its own test, are the whole archive. */
  lemma PartsInPlace(archive: seq<byte>, locals: text, centrals: text, end: text, localsInPlace: bool, centralsInPlace: bool)
    requires localsInPlace <==> StandsAt(archive, 0, locals)
    requires centralsInPlace && |locals| <= |archive| <==> StandsAt(archive, |locals|, centrals)
    ensures archive == locals + centrals + end
       <==> |locals| + |centrals| + |end| == |archive| && localsInPlace && centralsInPlace
            && At(archive, |archive| - |end|, |end|) == end
  {
    ThreeParts(archive, locals, centrals, end);
  }

  lemma AllCentrals(archive: seq<byte>, position: nat, specs: seq<InputSpec>, files: seq<ZipFile>)
    requires |specs| == |files|
    ensures |Centrals(specs, files, 0)| == CentralsSize(specs, 0)
    ensures CentralsAt(archive, position, specs, files, 0, 0) && position <= |archive|
       <==> StandsAt(archive, position, Centrals(specs, files, 0))
  {
    CentralsAtIsConcatenation(archive, position, specs, files, 0, 0);
    assert specs[0..] == specs && files[0..] == files;
  }

  lemma ThreeParts(archive: seq<byte>, a: text, b: text, c: text)
    ensures archive == a + b + c
       <==> |a| + |b| + |c| == |archive| && StandsAt(archive, 0, a) && StandsAt(archive, |a|, b)
            && At(archive, |archive| - |c|, |c|) == c
  {
    if |a| + |b| + |c| == |archive| {
      var x, y, z := At(archive, 0, |a|), At(archive, |a|, |b|), At(archive, |archive| - |c|, |c|);
      assert archive == x + y + z;
      Split3(x, y, z, a, b, c);
    }
  }

  lemma {:induction false} DatasCarried(archive: seq<byte>, offset: nat, specs: seq<InputSpec>, files: seq<ZipFile>)
    requires |specs| == |files| && LocalsAt(archive, offset, specs, files)
    ensures Carries(files, DatasAt(archive, offset, specs, files))
    decreases |specs|
  {
    if specs != [] {
      DatasCarried(archive, offset + LocalSize(specs[0], files[0]), specs[1..], files[1..]);
    }
  }

  lemma TiledExactly(archive: seq<byte>, specs: seq<InputSpec>, files: seq<ZipFile>)
    requires |specs| == |files|
    ensures Tiled(archive, specs, files) <==> exists datas :: LaidOut(archive, specs, files, datas)
  {
    if Tiled(archive, specs, files) {
      var datas := DatasAt(archive, 0, specs, files);
      DatasCarried(archive, 0, specs, files);
      LaidOutIsTiled(archive, specs, files, datas);
    }
    if datas :| LaidOut(archive, specs, files, datas) {
      LaidOutIsTiled(archive, specs, files, datas);
    }
  }

  /** An accepted archive fixes the compressed data it carries, as the data fix the archive. */
  lemma DataIsDetermined(archive: seq<byte>, specs: seq<InputSpec>, files: seq<ZipFile>,
                         datas: seq<seq<byte>>, datas': seq<seq<byte>>)
    requires LaidOut(archive, specs, files, datas) && LaidOut(archive, specs, files, datas')
    ensures datas == datas'
  {
    LaidOutIsTiled(archive, specs, files, datas);
    LaidOutIsTiled(archive, specs, files, datas');
  }

  /** Accepted archives that carry the same compressed data for the same entries are the same bytes. */
  lemma SameDataSameArchive(archive: seq<byte>, archive': seq<byte>, specs: seq<InputSpec>, files: seq<ZipFile>)
    requires |specs| == |files| && Tiled(archive, specs, files) && Tiled(archive', specs, files)
    requires DatasAt(archive, 0, specs, files) == DatasAt(archive', 0, specs, files)
    ensures archive == archive'
  {
    var datas := DatasAt(archive, 0, specs, files);
    DatasCarried(archive, 0, specs, files);
    LaidOutIsTiled(archive, specs, files, datas);
    LaidOutIsTiled(archive', specs, files, datas);
  }

  lemma {:induction false} SizesAdd(specs: seq<InputSpec>, files: seq<ZipFile>, k: nat)
    requires |specs| == |files| && k <= |specs|
    ensures OffsetOf(specs, files, k) + LocalsSize(specs[k..], files[k..]) == LocalsSize(specs, files)
  {
    if k == 0 {
      assert specs[0..] == specs && files[0..] == files;
    } else {
      SizesAdd(specs, files, k - 1);
      assert specs[k - 1..][1..] == specs[k..] && files[k - 1..][1..] == files[k..];
    }
  }

  /** The first loop: every local part in place, and the offsets recorded without truncation. */
  method CheckLocals(archive: seq<byte>, specs: seq<InputSpec>, files: seq<ZipFile>, localOffsets: array<uint32>)
    returns (end: Option<nat>)
    requires |specs| == |files| == localOffsets.Length
    modifies localOffsets
    ensures end.Some? <==> EntriesFit(specs, files, 0) && LocalsAt(archive, 0, specs, files)
    ensures end.Some? ==> end.value == LocalsSize(specs, files)
    ensures end.Some? ==> forall j {:trigger localOffsets[j]} :: 0 <= j < |specs| ==>
              (localOffsets[j] == OffsetOf(specs, files, j) && EntryFits(specs[j], files[j], localOffsets[j]))
  {
    var localOffset := 0;
    for k := 0 to |specs|
      invariant localOffset == OffsetOf(specs, files, k)
      invariant EntriesFit(specs, files, 0) && LocalsAt(archive, 0, specs, files)
           <==> EntriesFit(specs[k..], files[k..], localOffset) && LocalsAt(archive, localOffset, specs[k..], files[k..])
      invariant forall j {:trigger localOffsets[j]} :: 0 <= j < k ==>
              (localOffsets[j] == OffsetOf(specs, files, j) && EntryFits(specs[j], files[j], localOffsets[j]))
    {
      assert specs[k..][0] == specs[k] && specs[k..][1..] == specs[k + 1..];
      assert files[k..][0] == files[k] && files[k..][1..] == files[k + 1..];
      var next := CheckLocal(archive, localOffset, specs[k], files[k]);
      if next.None? {
        return None;
      }
      ToUint32Exact(localOffset);
      localOffsets[k] := ToUint32(localOffset);
      localOffset := next.value;
    }
    SizesAdd(specs, files, |specs|);
    return Some(localOffset);
  }

  /** The second loop: every central header in place, pointing at the recorded offset. */
  method CheckCentrals(archive: seq<byte>, start: nat, specs: seq<InputSpec>, files: seq<ZipFile>, localOffsets: array<uint32>)
    returns (end: Option<nat>)
    requires |specs| == |files| == localOffsets.Length
    requires forall j {:trigger localOffsets[j]} :: 0 <= j < |specs| ==>
              (localOffsets[j] == OffsetOf(specs, files, j) && EntryFits(specs[j], files[j], localOffsets[j]))
    ensures end.Some? <==> CentralsAt(archive, start, specs, files, 0, 0)
    ensures end.Some? ==> end.value == start + CentralsSize(specs, 0)
  {
    var position: nat := start;
    for k := 0 to |specs|
      invariant CentralsAt(archive, start, specs, files, 0, 0)
           <==> CentralsAt(archive, position, specs, files, k, OffsetOf(specs, files, k))
      invariant position + CentralsSize(specs, k) == start + CentralsSize(specs, 0)
    {
      var next := CheckCentral(archive, position, specs[k], files[k], localOffsets[k]);
      if next.None? {
        return None;
      }
      position := next.value;
    }
    return Some(position);
  }

  /** The end record settles the sizes: what is left to check are the parts themselves. */
  lemma EndDecides(archive: seq<byte>, specs: seq<InputSpec>, files: seq<ZipFile>)
    requires |specs| == |files|
    ensures Tiled(archive, specs, files) <==>
              |archive| >= 22 && |specs| <= MAX_UINT16
              && (var end := At(archive, |archive| - 22, 22);
                  var centralSize, centralOffset := U32(At(end, 12, 4)), U32(At(end, 16, 4));
                  EndFields(end, |specs|) && centralOffset + centralSize == |archive| - 22
                  && EntriesFit(specs, files, 0) && LocalsAt(archive, 0, specs, files)
                  && LocalsSize(specs, files) == centralOffset
                  && CentralsAt(archive, centralOffset, specs, files, 0, 0)
                  && CentralsSize(specs, 0) == centralSize)
  {
    if |archive| >= 22 && |specs| <= MAX_UINT16 {
      var end := At(archive, |archive| - 22, 22);
      U32Exact(At(end, 12, 4), 0);
      U32Exact(At(end, 16, 4), 0);
      EndFieldsExact(end, |specs|, U32(At(end, 12, 4)), U32(At(end, 16, 4)));
      if Tiled(archive, specs, files) {
        EndFieldsExact(end, |specs|, CentralsSize(specs, 0), LocalsSize(specs, files));
      }
    }
  }

  method CheckTiled(archive: seq<byte>, specs: seq<InputSpec>, files: seq<ZipFile>) returns (ok: bool)
    requires |specs| == |files|
    ensures ok <==> Tiled(archive, specs, files)
  {
    EndDecides(archive, specs, files);
    if |archive| < 22 || |specs| > MAX_UINT16 {
      return false;
    }
    var endOffset := |archive| - 22;
    var end := ReadAtExact(archive, endOffset, 22).value;
    var centralSize, centralOffset := U32(At(end, 12, 4)), U32(At(end, 16, 4));
    if !EndFields(end, |specs|) || centralOffset + centralSize != endOffset {
      return false;
    }
    ok := CheckParts(archive, specs, files, centralOffset, centralSize);
  }

  /** The two loops, between the sizes that the end record declares. */
  method CheckParts(archive: seq<byte>, specs: seq<InputSpec>, files: seq<ZipFile>, centralOffset: nat, centralSize: nat)
    returns (ok: bool)
    requires |specs| == |files|
    ensures ok <==> EntriesFit(specs, files, 0) && LocalsAt(archive, 0, specs, files)
                    && LocalsSize(specs, files) == centralOffset
                    && CentralsAt(archive, centralOffset, specs, files, 0, 0)
                    && CentralsSize(specs, 0) == centralSize
  {
    var localOffsets := new uint32[|specs|](_ => 0);
    var localEnd := CheckLocals(archive, specs, files, localOffsets);
    if localEnd != Some(centralOffset) {
      return false;
    }
    var position := CheckCentrals(archive, centralOffset, specs, files, localOffsets);
    return position == Some(centralOffset + centralSize);
  }
}
