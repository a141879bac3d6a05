/** The layout that tools/archivepack/verify.go accepts, read byte by byte, after sections 4.3.7, 4.3.9, 4.3.12 and
    4.3.16 of PKWARE APPNOTE.TXT. */
module ZipReadBack {
  import opened Bytes
  import opened Entries
  import opened ZipLayout

  // ----- numbers in the file

  ghost predicate Holds16(archive: seq<byte>, p: nat, v: nat) {
    p + 2 <= |archive| && archive[p] as int + 0x100 * archive[p + 1] as int == v
  }

  ghost predicate Holds32(archive: seq<byte>, p: nat, v: int) {
    p + 4 <= |archive|
    && archive[p] as int + 0x100 * archive[p + 1] as int
       + 0x1_0000 * archive[p + 2] as int + 0x100_0000 * archive[p + 3] as int == v
  }

  lemma AtAt(archive: seq<byte>, from: nat, size: nat, i: nat, width: nat)
    requires from + size <= |archive| && i + width <= size
    ensures At(At(archive, from, size), i, width) == At(archive, from + i, width)
  {
    var whole, a, b := At(archive, from, size), At(At(archive, from, size), i, width), At(archive, from + i, width);
    forall k | 0 <= k < width ensures a[k] == b[k] {
      assert a[k] == whole[i + k] && b[k] == archive[from + i + k];
    }
    assert a == b;
  }

  lemma Field16(archive: seq<byte>, from: nat, size: nat, i: nat, v: nat)
    requires from + size <= |archive| && i + 2 <= size
    ensures U16(At(At(archive, from, size), i, 2)) == v <==> Holds16(archive, from + i, v)
  {
    AtAt(archive, from, size, i, 2);
  }

  lemma Field32(archive: seq<byte>, from: nat, size: nat, i: nat, v: nat)
    requires from + size <= |archive| && i + 4 <= size
    ensures U32(At(At(archive, from, size), i, 4)) == v <==> Holds32(archive, from + i, v)
  {
    AtAt(archive, from, size, i, 4);
  }

  // ----- the records

  ghost predicate HeaderReads(archive: seq<byte>, offset: nat, nameLength: nat) {
    && Holds32(archive, offset, 0x04034b50)
    && Holds16(archive, offset + 4, 20) && Holds16(archive, offset + 6, 8) && Holds16(archive, offset + 8, 8)
    && Holds16(archive, offset + 10, 0) && Holds16(archive, offset + 12, 33)
    && Holds32(archive, offset + 14, 0) && Holds32(archive, offset + 18, 0) && Holds32(archive, offset + 22, 0)
    && Holds16(archive, offset + 26, nameLength) && Holds16(archive, offset + 28, 9)
  }

  ghost predicate DescriptorReads(archive: seq<byte>, p: nat, file: ZipFile) {
    && Holds32(archive, p, 0x08074b50) && Holds32(archive, p + 4, file.crc)
    && Holds32(archive, p + 8, file.compressed) && Holds32(archive, p + 12, file.uncompressed)
  }

  /** The local header of an entry at an offset, its name and extra field, and the data descriptor behind the data. */
  ghost predicate LocalBytes(archive: seq<byte>, offset: nat, spec: InputSpec, file: ZipFile) {
    var n := |spec.name|;
    && offset + 55 + n + file.compressed <= |archive|
    && HeaderReads(archive, offset, n)
    && archive[offset + 30..offset + 39 + n] == spec.name + [0x55, 0x54, 5, 0, 1, 0x00, 0xA6, 0xCE, 0x12]
    && DescriptorReads(archive, offset + 39 + n + file.compressed, file)
  }

  /** The central header of an entry, which repeats its numbers and points at its local header. */
  ghost predicate CentralBytes(archive: seq<byte>, p: nat, spec: InputSpec, file: ZipFile, offset: nat) {
    var n := |spec.name|;
    && p + 55 + n <= |archive|
    && Holds32(archive, p, 0x02014b50) && Holds16(archive, p + 4, 0x314) && Holds16(archive, p + 6, 20)
    && Holds16(archive, p + 8, 8) && Holds16(archive, p + 10, 8)
    && Holds16(archive, p + 12, 0) && Holds16(archive, p + 14, 33)
    && Holds32(archive, p + 16, file.crc)
    && Holds32(archive, p + 20, file.compressed) && Holds32(archive, p + 24, file.uncompressed)
    && Holds16(archive, p + 28, n) && Holds16(archive, p + 30, 9)
    && Holds16(archive, p + 32, 0) && Holds16(archive, p + 34, 0) && Holds16(archive, p + 36, 0)
    && Holds16(archive, p + 38, 0) && Holds16(archive, p + 40, 0x8000 + spec.mode % 512)
    && Holds32(archive, p + 42, offset)
    && archive[p + 46..p + 55 + n] == spec.name + [0x55, 0x54, 5, 0, 1, 0x00, 0xA6, 0xCE, 0x12]
  }

  ghost predicate EndBytes(archive: seq<byte>, p: nat, count: nat, centralSize: int, centralOffset: nat) {
    && p + 22 == |archive|
    && Holds32(archive, p, 0x06054b50) && Holds16(archive, p + 4, 0) && Holds16(archive, p + 6, 0)
    && Holds16(archive, p + 8, count) && Holds16(archive, p + 10, count)
    && Holds32(archive, p + 12, centralSize) && Holds32(archive, p + 16, centralOffset) && Holds16(archive, p + 20, 0)
  }

  /** One entry: its local part at an offset, with its data where the reader finds them, and its central header. */
  ghost predicate EntryReads(archive: seq<byte>, spec: InputSpec, file: ZipFile, data: seq<byte>, offset: nat, header: nat) {
    var from := offset + 39 + |spec.name|;
    && LocalBytes(archive, offset, spec, file) && file.dataOffset == Some(from)
    && archive[from..from + file.compressed] == data
    && CentralBytes(archive, header, spec, file, offset)
  }

  /** What holds of entry k with its local part at an offset and its central header at a position. */
  type EntryTest = (nat, nat, nat) -> bool

  /** Entries from k on, each behind the one before, until the local parts meet start and the headers a final position. */
  ghost predicate Follow(specs: seq<InputSpec>, files: seq<ZipFile>, test: EntryTest, ends: nat -> bool, start: nat,
                         k: nat, offset: nat, header: nat)
    requires |specs| == |files| && k <= |specs|
    decreases |specs| - k
  {
    if k == |specs| then offset == start && ends(header)
    else
      test(k, offset, header)
      && Follow(specs, files, test, ends, start, k + 1,
                offset + 55 + |specs[k].name| + files[k].compressed, header + 55 + |specs[k].name|)
  }

  ghost function Reading(archive: seq<byte>, specs: seq<InputSpec>, files: seq<ZipFile>, datas: seq<seq<byte>>): EntryTest {
    (k: nat, offset: nat, header: nat) =>
      k < |specs| == |files| == |datas| && EntryReads(archive, specs[k], files[k], datas[k], offset, header)
  }

  ghost function Ending(archive: seq<byte>, count: nat, start: nat): nat -> bool {
    (end: nat) => EndBytes(archive, end, count, end as int - start, start)
  }

  /**
   * The file read back, from the end record that says where the central headers start: local parts from the first
   * byte on, which end where the headers start, which end at the end record; and not a byte besides.
   */
  ghost predicate ReadsBack(archive: seq<byte>, specs: seq<InputSpec>, files: seq<ZipFile>, datas: seq<seq<byte>>, start: nat) {
    |specs| == |files| == |datas|
    && Follow(specs, files, Reading(archive, specs, files, datas), Ending(archive, |specs|, start), start, 0, 0, start)
  }

  lemma ExtraBytes()
    ensures EXTRA == [0x55, 0x54, 5, 0, 1, 0x00, 0xA6, 0xCE, 0x12]
  {
  }

  lemma HeaderBytes(archive: seq<byte>, offset: nat, n: nat)
    requires offset + 30 <= |archive| && n <= MAX_UINT16
    ensures At(archive, offset, 30) == LocalHeader(n) <==> HeaderReads(archive, offset, n)
  {
    LocalFieldsExact(At(archive, offset, 30), n);
    Field32(archive, offset, 30, 0, 0x04034b50);
    Field16(archive, offset, 30, 4, 20);
    Field16(archive, offset, 30, 6, 8);
    Field16(archive, offset, 30, 8, 8);
    Field16(archive, offset, 30, 10, 0);
    Field16(archive, offset, 30, 12, 33);
    Field32(archive, offset, 30, 14, 0);
    Field32(archive, offset, 30, 18, 0);
    Field32(archive, offset, 30, 22, 0);
    Field16(archive, offset, 30, 26, n);
    Field16(archive, offset, 30, 28, 9);
  }

  lemma DescriptorBytes(archive: seq<byte>, p: nat, file: ZipFile)
    requires p + 16 <= |archive| && file.compressed <= MAX_UINT32 && file.uncompressed <= MAX_UINT32
    ensures At(archive, p, 16) == Descriptor(file) <==> DescriptorReads(archive, p, file)
  {
    DescriptorFieldsExact(At(archive, p, 16), file);
    ToUint32Exact(file.compressed);
    ToUint32Exact(file.uncompressed);
    Field32(archive, p, 16, 0, 0x08074b50);
    Field32(archive, p, 16, 4, file.crc);
    Field32(archive, p, 16, 8, file.compressed);
    Field32(archive, p, 16, 12, file.uncompressed);
  }

  lemma LocalAtBy(archive: seq<byte>, offset: nat, spec: InputSpec, file: ZipFile, header: bool, descriptor: bool)
    requires offset + LocalSize(spec, file) <= |archive|
    requires header <==> At(archive, offset, 30) == LocalHeader(|spec.name|)
    requires descriptor <==> At(archive, offset + 39 + |spec.name| + file.compressed, 16) == Descriptor(file)
    ensures LocalAt(archive, offset, spec, file)
       <==> header && At(archive, offset + 30, |spec.name| + 9) == spec.name + [0x55, 0x54, 5, 0, 1, 0x00, 0xA6, 0xCE, 0x12] && descriptor
  {
    ExtraBytes();
  }

  lemma LocalPieces(archive: seq<byte>, offset: nat, spec: InputSpec, file: ZipFile)
    requires offset + LocalSize(spec, file) <= |archive| && |spec.name| <= MAX_UINT16
    requires file.compressed <= MAX_UINT32 && file.uncompressed <= MAX_UINT32
    ensures LocalBytes(archive, offset, spec, file) <==> LocalAt(archive, offset, spec, file)
  {
    var descriptor := offset + 39 + |spec.name| + file.compressed;
    HeaderBytes(archive, offset, |spec.name|);
    DescriptorBytes(archive, descriptor, file);
    LocalAtBy(archive, offset, spec, file, HeaderReads(archive, offset, |spec.name|), DescriptorReads(archive, descriptor, file));
  }

  lemma LocalBytesExact(archive: seq<byte>, offset: nat, spec: InputSpec, file: ZipFile)
    ensures LocalBytes(archive, offset, spec, file)
       <==> |spec.name| <= MAX_UINT16 && file.compressed <= MAX_UINT32 && file.uncompressed <= MAX_UINT32
            && LocalAt(archive, offset, spec, file)
  {
    if offset + LocalSize(spec, file) <= |archive| && |spec.name| <= MAX_UINT16
       && file.compressed <= MAX_UINT32 && file.uncompressed <= MAX_UINT32 {
      LocalPieces(archive, offset, spec, file);
    }
  }

  lemma ExternalModeHalves(archive: seq<byte>, p: nat, mode: nat)
    requires p + 4 <= |archive|
    ensures Holds32(archive, p, ExternalMode(mode)) <==> Holds16(archive, p, 0) && Holds16(archive, p + 2, 0x8000 + mode % 512)
  {
  }

  lemma CentralHeaderBytes(archive: seq<byte>, p: nat, spec: InputSpec, file: ZipFile, offset: uint32)
    requires p + 46 <= |archive| && |spec.name| <= MAX_UINT16
    requires file.compressed <= MAX_UINT32 && file.uncompressed <= MAX_UINT32
    ensures At(archive, p, 46) == CentralHeader(spec, file, offset) <==>
              && Holds32(archive, p, 0x02014b50) && Holds16(archive, p + 4, 0x314) && Holds16(archive, p + 6, 20)
              && Holds16(archive, p + 8, 8) && Holds16(archive, p + 10, 8)
              && Holds16(archive, p + 12, 0) && Holds16(archive, p + 14, 33)
              && Holds32(archive, p + 16, file.crc)
              && Holds32(archive, p + 20, file.compressed) && Holds32(archive, p + 24, file.uncompressed)
              && Holds16(archive, p + 28, |spec.name|) && Holds16(archive, p + 30, 9)
              && Holds16(archive, p + 32, 0) && Holds16(archive, p + 34, 0) && Holds16(archive, p + 36, 0)
              && Holds16(archive, p + 38, 0) && Holds16(archive, p + 40, 0x8000 + spec.mode % 512)
              && Holds32(archive, p + 42, offset)
  {
    CentralFieldsExact(At(archive, p, 46), spec, file, offset);
    ToUint32Exact(file.compressed);
    ToUint32Exact(file.uncompressed);
    ExternalModeHalves(archive, p + 38, spec.mode);
    Field32(archive, p, 46, 0, 0x02014b50);
    Field16(archive, p, 46, 4, 0x314);
    Field16(archive, p, 46, 6, 20);
    Field16(archive, p, 46, 8, 8);
    Field16(archive, p, 46, 10, 8);
    Field16(archive, p, 46, 12, 0);
    Field16(archive, p, 46, 14, 33);
    Field32(archive, p, 46, 16, file.crc);
    Field32(archive, p, 46, 20, file.compressed);
    Field32(archive, p, 46, 24, file.uncompressed);
    Field16(archive, p, 46, 28, |spec.name|);
    Field16(archive, p, 46, 30, 9);
    Field16(archive, p, 46, 32, 0);
    Field16(archive, p, 46, 34, 0);
    Field16(archive, p, 46, 36, 0);
    Field32(archive, p, 46, 38, ExternalMode(spec.mode));
    Field32(archive, p, 46, 42, offset);
  }

  lemma CentralBytesExact(archive: seq<byte>, p: nat, spec: InputSpec, file: ZipFile, offset: nat)
    ensures CentralBytes(archive, p, spec, file, offset)
       <==> |spec.name| <= MAX_UINT16 && file.compressed <= MAX_UINT32 && file.uncompressed <= MAX_UINT32
            && offset <= MAX_UINT32 && CentralAt(archive, p, spec, file, offset)
  {
    ExtraBytes();
    if p + 55 + |spec.name| <= |archive| && |spec.name| <= MAX_UINT16
       && file.compressed <= MAX_UINT32 && file.uncompressed <= MAX_UINT32 && offset <= MAX_UINT32 {
      CentralHeaderBytes(archive, p, spec, file, offset);
    }
  }

  lemma EndBytesExact(archive: seq<byte>, p: nat, count: nat, centralSize: nat, centralOffset: nat)
    ensures EndBytes(archive, p, count, centralSize, centralOffset)
       <==> p + 22 == |archive| && count <= MAX_UINT16 && centralSize <= MAX_UINT32 && centralOffset <= MAX_UINT32
            && At(archive, p, 22) == EndRecord(count, centralSize, centralOffset)
  {
    if p + 22 == |archive| {
      if count <= MAX_UINT16 && centralSize <= MAX_UINT32 && centralOffset <= MAX_UINT32 {
        EndFieldsExact(At(archive, p, 22), count, centralSize, centralOffset);
      }
      Field32(archive, p, 22, 0, 0x06054b50);
      Field16(archive, p, 22, 4, 0);
      Field16(archive, p, 22, 6, 0);
      Field16(archive, p, 22, 8, count);
      Field16(archive, p, 22, 10, count);
      Field32(archive, p, 22, 12, centralSize);
      Field32(archive, p, 22, 16, centralOffset);
      Field16(archive, p, 22, 20, 0);
    }
  }

  // ----- entry by entry

  lemma EntryBy(archive: seq<byte>, spec: InputSpec, file: ZipFile, data: seq<byte>, offset: nat, header: nat,
                localAt: bool, centralAt: bool)
    requires localAt ==> offset + LocalSize(spec, file) <= |archive|
    requires LocalBytes(archive, offset, spec, file)
        <==> |spec.name| <= MAX_UINT16 && file.compressed <= MAX_UINT32 && file.uncompressed <= MAX_UINT32 && localAt
    requires CentralBytes(archive, header, spec, file, offset)
        <==> |spec.name| <= MAX_UINT16 && file.compressed <= MAX_UINT32 && file.uncompressed <= MAX_UINT32
             && offset <= MAX_UINT32 && centralAt
    ensures EntryReads(archive, spec, file, data, offset, header)
       <==> EntryFits(spec, file, offset) && localAt
            && At(archive, offset + 39 + |spec.name|, file.compressed) == data && centralAt
  {
  }

  lemma EntryExact(archive: seq<byte>, spec: InputSpec, file: ZipFile, data: seq<byte>, offset: nat, header: nat)
    ensures EntryReads(archive, spec, file, data, offset, header)
       <==> EntryFits(spec, file, offset) && LocalAt(archive, offset, spec, file)
            && At(archive, offset + 39 + |spec.name|, file.compressed) == data && CentralAt(archive, header, spec, file, offset)
  {
    LocalBytesExact(archive, offset, spec, file);
    CentralBytesExact(archive, header, spec, file, offset);
    EntryBy(archive, spec, file, data, offset, header,
            LocalAt(archive, offset, spec, file), CentralAt(archive, header, spec, file, offset));
  }

  lemma PartWithData(archive: seq<byte>, offset: nat, spec: InputSpec, file: ZipFile, data: seq<byte>)
    requires |data| == file.compressed
    ensures StandsAt(archive, offset, LocalPart(spec, file, data))
       <==> LocalAt(archive, offset, spec, file) && At(archive, offset + 39 + |spec.name|, file.compressed) == data
  {
    if offset + LocalSize(spec, file) <= |archive| {
      LocalAtIsPart(archive, offset, spec, file, data);
    }
  }

  /** What the two loops of the check say from entry k on. */
  ghost predicate LaidOutFrom(archive: seq<byte>, specs: seq<InputSpec>, files: seq<ZipFile>, datas: seq<seq<byte>>,
                              ends: nat -> bool, start: nat, k: nat, offset: nat, header: nat)
    requires |specs| == |files| == |datas| && k <= |specs|
  {
    && EntriesFit(specs[k..], files[k..], offset)
    && LocalsCarry(archive, offset, specs[k..], files[k..], datas[k..])
    && CentralsAt(archive, header, specs, files, k, offset)
    && offset + LocalsSize(specs[k..], files[k..]) == start
    && ends(header + CentralsSize(specs, k))
  }

  lemma LaidOutStep(archive: seq<byte>, specs: seq<InputSpec>, files: seq<ZipFile>, datas: seq<seq<byte>>,
                    ends: nat -> bool, start: nat, k: nat, offset: nat, header: nat)
    requires |specs| == |files| && Carries(files, datas) && k < |specs|
    ensures LaidOutFrom(archive, specs, files, datas, ends, start, k, offset, header)
       <==> EntryFits(specs[k], files[k], offset) && StandsAt(archive, offset, LocalPart(specs[k], files[k], datas[k]))
            && CentralAt(archive, header, specs[k], files[k], offset)
            && LaidOutFrom(archive, specs, files, datas, ends, start, k + 1, offset + LocalSize(specs[k], files[k]),
                           header + 55 + |specs[k].name|)
  {
    assert specs[k..][0] == specs[k] && specs[k..][1..] == specs[k + 1..];
    assert files[k..][0] == files[k] && files[k..][1..] == files[k + 1..];
    assert datas[k..][0] == datas[k] && datas[k..][1..] == datas[k + 1..];
    LocalsAtStep(archive, offset, specs[k..], files[k..], datas[k..]);
  }

  /** An entry in place, as the loops of the check see it. */
  ghost function Placed(archive: seq<byte>, specs: seq<InputSpec>, files: seq<ZipFile>, datas: seq<seq<byte>>): EntryTest {
    (k: nat, offset: nat, header: nat) =>
      k < |specs| == |files| == |datas| && EntryFits(specs[k], files[k], offset)
      && StandsAt(archive, offset, LocalPart(specs[k], files[k], datas[k])) && CentralAt(archive, header, specs[k], files[k], offset)
  }

  /** The same with the part of the entry in pieces. */
  ghost function InPieces(archive: seq<byte>, specs: seq<InputSpec>, files: seq<ZipFile>, datas: seq<seq<byte>>): EntryTest {
    (k: nat, offset: nat, header: nat) =>
      k < |specs| == |files| == |datas| && EntryFits(specs[k], files[k], offset)
      && LocalAt(archive, offset, specs[k], files[k])
      && At(archive, offset + 39 + |specs[k].name|, files[k].compressed) == datas[k]
      && CentralAt(archive, header, specs[k], files[k], offset)
  }

  lemma ReadingIsInPieces(archive: seq<byte>, specs: seq<InputSpec>, files: seq<ZipFile>, datas: seq<seq<byte>>,
                          k: nat, offset: nat, header: nat)
    requires |specs| == |files| == |datas| && k < |specs|
    ensures Reading(archive, specs, files, datas)(k, offset, header) <==> InPieces(archive, specs, files, datas)(k, offset, header)
  {
    EntryExact(archive, specs[k], files[k], datas[k], offset, header);
  }

  lemma InPiecesIsPlaced(archive: seq<byte>, specs: seq<InputSpec>, files: seq<ZipFile>, datas: seq<seq<byte>>,
                         k: nat, offset: nat, header: nat)
    requires |specs| == |files| && Carries(files, datas) && k < |specs|
    ensures InPieces(archive, specs, files, datas)(k, offset, header) <==> Placed(archive, specs, files, datas)(k, offset, header)
  {
    PartWithData(archive, offset, specs[k], files[k], datas[k]);
  }

  lemma {:induction false} SameTests(specs: seq<InputSpec>, files: seq<ZipFile>, test: EntryTest, test': EntryTest,
                                     ends: nat -> bool, start: nat, k: nat, offset: nat, header: nat)
    requires |specs| == |files| && k <= |specs|
    requires forall k: nat, offset: nat, header: nat :: k < |specs| ==> (test(k, offset, header) <==> test'(k, offset, header))
    ensures Follow(specs, files, test, ends, start, k, offset, header) <==> Follow(specs, files, test', ends, start, k, offset, header)
    decreases |specs| - k
  {
    if k < |specs| {
      SameTests(specs, files, test, test', ends, start, k + 1,
                offset + 55 + |specs[k].name| + files[k].compressed, header + 55 + |specs[k].name|);
    }
  }

  /** Whatever unrolls like Follow is Follow. */
  lemma {:induction false} Unrolled(specs: seq<InputSpec>, files: seq<ZipFile>, test: EntryTest, ends: nat -> bool, start: nat,
                                    from: EntryTest, k: nat, offset: nat, header: nat)
    requires |specs| == |files| && k <= |specs|
    requires forall offset: nat, header: nat :: from(|specs|, offset, header) <==> offset == start && ends(header)
    requires forall k: nat, offset: nat, header: nat :: k < |specs| ==>
               (from(k, offset, header) <==>
                test(k, offset, header)
                && from(k + 1, offset + 55 + |specs[k].name| + files[k].compressed, header + 55 + |specs[k].name|))
    ensures Follow(specs, files, test, ends, start, k, offset, header) <==> from(k, offset, header)
    decreases |specs| - k
  {
    if k < |specs| {
      Unrolled(specs, files, test, ends, start, from, k + 1,
               offset + 55 + |specs[k].name| + files[k].compressed, header + 55 + |specs[k].name|);
    }
  }

  lemma {:induction false} FollowEnds(specs: seq<InputSpec>, files: seq<ZipFile>, test: EntryTest, ends: nat -> bool, start: nat,
                                      k: nat, offset: nat, header: nat)
    requires |specs| == |files| && k <= |specs| && Follow(specs, files, test, ends, start, k, offset, header)
    ensures exists end: nat :: ends(end)
    decreases |specs| - k
  {
    if k < |specs| {
      FollowEnds(specs, files, test, ends, start, k + 1,
                 offset + 55 + |specs[k].name| + files[k].compressed, header + 55 + |specs[k].name|);
    }
  }

  lemma {:induction false} FollowTests(specs: seq<InputSpec>, files: seq<ZipFile>, test: EntryTest, ends: nat -> bool, start: nat,
                                       k: nat, offset: nat, header: nat, i: nat)
    requires |specs| == |files| && k <= i < |specs| && Follow(specs, files, test, ends, start, k, offset, header)
    ensures exists o: nat, h: nat :: test(i, o, h)
    decreases |specs| - k
  {
    if k < i {
      FollowTests(specs, files, test, ends, start, k + 1,
                  offset + 55 + |specs[k].name| + files[k].compressed, header + 55 + |specs[k].name|, i);
    } else {
      assert test(i, offset, header);
    }
  }

  lemma EndInside(archive: seq<byte>, count: nat, start: nat, end: nat)
    requires Ending(archive, count, start)(end)
    ensures start <= |archive|
  {
    assert Holds32(archive, end + 12, end as int - start);
    assert archive[end + 12] as int >= 0 && archive[end + 13] as int >= 0;
    assert archive[end + 14] as int >= 0 && archive[end + 15] as int >= 0;
  }

  lemma StartInside(archive: seq<byte>, specs: seq<InputSpec>, files: seq<ZipFile>, datas: seq<seq<byte>>, start: nat)
    requires ReadsBack(archive, specs, files, datas, start)
    ensures start <= |archive|
  {
    var ends := Ending(archive, |specs|, start);
    FollowEnds(specs, files, Reading(archive, specs, files, datas), ends, start, 0, 0, start);
    var end: nat :| ends(end);
    EndInside(archive, |specs|, start, end);
  }

  lemma LaidOutEnd(archive: seq<byte>, specs: seq<InputSpec>, files: seq<ZipFile>, datas: seq<seq<byte>>,
                   ends: nat -> bool, start: nat, offset: nat, header: nat)
    requires |specs| == |files| && Carries(files, datas) && start <= |archive|
    ensures LaidOutFrom(archive, specs, files, datas, ends, start, |specs|, offset, header) <==> offset == start && ends(header)
  {
    assert specs[|specs|..] == [] && files[|specs|..] == [] && datas[|specs|..] == [];
  }

  lemma PlacedIsLaidOut(archive: seq<byte>, specs: seq<InputSpec>, files: seq<ZipFile>, datas: seq<seq<byte>>,
                        ends: nat -> bool, start: nat)
    requires |specs| == |files| && Carries(files, datas) && start <= |archive|
    ensures Follow(specs, files, Placed(archive, specs, files, datas), ends, start, 0, 0, start)
       <==> LaidOutFrom(archive, specs, files, datas, ends, start, 0, 0, start)
  {
    var test := Placed(archive, specs, files, datas);
    var from := (k: nat, offset: nat, header: nat) =>
      k <= |specs| && LaidOutFrom(archive, specs, files, datas, ends, start, k, offset, header);
    forall k: nat, offset: nat, header: nat | k < |specs|
      ensures from(k, offset, header) <==>
                test(k, offset, header)
                && from(k + 1, offset + 55 + |specs[k].name| + files[k].compressed, header + 55 + |specs[k].name|)
    {
      LaidOutStep(archive, specs, files, datas, ends, start, k, offset, header);
    }
    forall offset: nat, header: nat ensures from(|specs|, offset, header) <==> offset == start && ends(header) {
      LaidOutEnd(archive, specs, files, datas, ends, start, offset, header);
    }
    Unrolled(specs, files, test, ends, start, from, 0, 0, start);
  }

  lemma ReadsOnExactly(archive: seq<byte>, specs: seq<InputSpec>, files: seq<ZipFile>, datas: seq<seq<byte>>, start: nat)
    requires |specs| == |files| && Carries(files, datas) && start <= |archive|
    ensures ReadsBack(archive, specs, files, datas, start)
       <==> LaidOutFrom(archive, specs, files, datas, Ending(archive, |specs|, start), start, 0, 0, start)
  {
    var reading, placed := Reading(archive, specs, files, datas), Placed(archive, specs, files, datas);
    var inPieces := InPieces(archive, specs, files, datas);
    forall k: nat, offset: nat, header: nat | k < |specs| ensures reading(k, offset, header) <==> placed(k, offset, header) {
      assert reading(k, offset, header) <==> inPieces(k, offset, header) by {
        ReadingIsInPieces(archive, specs, files, datas, k, offset, header);
      }
      assert inPieces(k, offset, header) <==> placed(k, offset, header) by {
        InPiecesIsPlaced(archive, specs, files, datas, k, offset, header);
      }
    }
    SameTests(specs, files, reading, placed, Ending(archive, |specs|, start), start, 0, 0, start);
    PlacedIsLaidOut(archive, specs, files, datas, Ending(archive, |specs|, start), start);
  }

  lemma TiledBy(archive: seq<byte>, specs: seq<InputSpec>, files: seq<ZipFile>, datas: seq<seq<byte>>, start: nat,
                fit: bool, carry: bool, headers: bool, end: bool)
    requires |specs| == |files| && start == LocalsSize(specs, files)
    requires fit <==> EntriesFit(specs, files, 0)
    requires carry <==> LocalsCarry(archive, 0, specs, files, datas)
    requires headers <==> CentralsAt(archive, start, specs, files, 0, 0)
    requires end <==> EndBytes(archive, start + CentralsSize(specs, 0), |specs|, CentralsSize(specs, 0), start)
    ensures Tiled(archive, specs, files) && DatasAt(archive, 0, specs, files) == datas <==> fit && carry && headers && end
  {
    EndBytesExact(archive, start + CentralsSize(specs, 0), |specs|, CentralsSize(specs, 0), start);
  }

  lemma FromStartBy(archive: seq<byte>, specs: seq<InputSpec>, files: seq<ZipFile>, datas: seq<seq<byte>>, ends: nat -> bool,
                    start: nat, fit: bool, carry: bool, headers: bool)
    requires |specs| == |files| == |datas|
    requires fit <==> EntriesFit(specs, files, 0)
    requires carry <==> LocalsCarry(archive, 0, specs, files, datas)
    requires headers <==> CentralsAt(archive, start, specs, files, 0, 0)
    ensures LaidOutFrom(archive, specs, files, datas, ends, start, 0, 0, start)
       <==> fit && carry && headers && start == LocalsSize(specs, files) && ends(start + CentralsSize(specs, 0))
  {
    assert specs[0..] == specs && files[0..] == files && datas[0..] == datas;
  }

  lemma LaidOutFromStart(archive: seq<byte>, specs: seq<InputSpec>, files: seq<ZipFile>, datas: seq<seq<byte>>,
                         ends: nat -> bool, start: nat)
    requires |specs| == |files| && Carries(files, datas)
    requires ends(start + CentralsSize(specs, 0)) <==>
               EndBytes(archive, start + CentralsSize(specs, 0), |specs|, CentralsSize(specs, 0), start)
    ensures LaidOutFrom(archive, specs, files, datas, ends, start, 0, 0, start)
       <==> start == LocalsSize(specs, files) && Tiled(archive, specs, files) && DatasAt(archive, 0, specs, files) == datas
  {
    var fit := EntriesFit(specs, files, 0);
    var carry := LocalsCarry(archive, 0, specs, files, datas);
    var headers := CentralsAt(archive, start, specs, files, 0, 0);
    FromStartBy(archive, specs, files, datas, ends, start, fit, carry, headers);
    if start == LocalsSize(specs, files) {
      TiledBy(archive, specs, files, datas, start, fit, carry, headers, ends(start + CentralsSize(specs, 0)));
    }
  }

  lemma ReadBackFrom(archive: seq<byte>, specs: seq<InputSpec>, files: seq<ZipFile>, datas: seq<seq<byte>>, start: nat)
    requires |specs| == |files| && Carries(files, datas)
    ensures ReadsBack(archive, specs, files, datas, start)
       <==> LaidOut(archive, specs, files, datas) && start == LocalsSize(specs, files)
  {
    LaidOutIsTiled(archive, specs, files, datas);
    if start <= |archive| {
      ReadsOnExactly(archive, specs, files, datas, start);
      LaidOutFromStart(archive, specs, files, datas, Ending(archive, |specs|, start), start);
    } else if ReadsBack(archive, specs, files, datas, start) {
      StartInside(archive, specs, files, datas, start);
      assert false;
    }
  }

  /** An archive is the canonical layout around some data if and only if these data are read back from it. */
  lemma ReadBackExactly(archive: seq<byte>, specs: seq<InputSpec>, files: seq<ZipFile>, datas: seq<seq<byte>>)
    requires Carries(files, datas)
    ensures LaidOut(archive, specs, files, datas) <==> exists start :: ReadsBack(archive, specs, files, datas, start)
  {
    if |specs| == |files| {
      ReadBackFrom(archive, specs, files, datas, LocalsSize(specs, files));
      if start :| ReadsBack(archive, specs, files, datas, start) {
        ReadBackFrom(archive, specs, files, datas, start);
      }
    }
  }

  lemma DatasRead(archive: seq<byte>, specs: seq<InputSpec>, files: seq<ZipFile>, datas: seq<seq<byte>>, start: nat)
    requires ReadsBack(archive, specs, files, datas, start)
    ensures Carries(files, datas)
  {
    forall i | 0 <= i < |files| ensures |datas[i]| == files[i].compressed {
      FollowTests(specs, files, Reading(archive, specs, files, datas), Ending(archive, |specs|, start), start, 0, 0, start, i);
      var offset: nat, header: nat :| Reading(archive, specs, files, datas)(i, offset, header);
      DataLength(archive, specs[i], files[i], datas[i], offset, header);
    }
  }

  lemma DataLength(archive: seq<byte>, spec: InputSpec, file: ZipFile, data: seq<byte>, offset: nat, header: nat)
    requires EntryReads(archive, spec, file, data, offset, header)
    ensures |data| == file.compressed
  {
  }

  lemma ReadableExactly(archive: seq<byte>, specs: seq<InputSpec>, files: seq<ZipFile>)
    ensures (exists datas :: LaidOut(archive, specs, files, datas))
       <==> (exists datas, start :: ReadsBack(archive, specs, files, datas, start))
  {
    if datas :| LaidOut(archive, specs, files, datas) {
      ReadBackExactly(archive, specs, files, datas);
      var start :| ReadsBack(archive, specs, files, datas, start);
    }
    if datas, start :| ReadsBack(archive, specs, files, datas, start) {
      DatasRead(archive, specs, files, datas, start);
      ReadBackExactly(archive, specs, files, datas);
    }
  }

  // ----- the check

  /** Accepts exactly the archives that are the canonical layout around some data, which are those that read back. */
  method VerifyCanonicalZipLayout(archive: seq<byte>, specs: seq<InputSpec>, files: seq<ZipFile>) returns (ok: bool)
    ensures ok <==> |specs| == |files| && exists datas :: LaidOut(archive, specs, files, datas)
    ensures ok <==> exists datas, start :: ReadsBack(archive, specs, files, datas, start)
  {
    if |files| != |specs| {
      return false;
    }
    ok := CheckTiled(archive, specs, files);
    TiledExactly(archive, specs, files);
    ReadableExactly(archive, specs, files);
  }
}
