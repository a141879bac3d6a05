/** The ustar header block tools/archivepack/verify.go builds and parses: octal fields, checksum, padding. */
module TarHeader {
  import opened Bytes
  import opened Entries

  const BLOCK: nat := 512
  const CANONICAL_SECONDS: nat := 315532800
  const MAX_INT64: nat := 0x7FFF_FFFF_FFFF_FFFF

  // ----- octal fields

  function Power8(n: nat): nat {
    if n == 0 then 1 else 8 * Power8(n - 1)
  }

  /** strconv.FormatInt(v, 8). */
  function OctalDigits(v: nat): text {
    if v < 8 then [48 + v] else OctalDigits(v / 8) + [48 + v % 8]
  }

  /** The same value with exactly n digits. */
  function Octal(v: nat, n: nat): (s: text)
    ensures |s| == n
    ensures forall i :: 0 <= i < n ==> 48 <= s[i] <= 55
  {
    if n == 0 then [] else Octal(v / 8, n - 1) + [48 + v % 8]
  }

  function OctalValue(s: text): nat
    requires forall i :: 0 <= i < |s| ==> 48 <= s[i] <= 55
  {
    if s == [] then 0 else OctalValue(s[..|s| - 1]) * 8 + (s[|s| - 1] - 48)
  }

  /** A numeric field: octal digits, then NUL. None when the value is outside the grammar. */
  function FormatField(v: int, length: nat): Option<text> {
    if length < 2 || v < 0 || v >= Power8(length - 1) then None else Some(Octal(v, length - 1) + [0])
  }

  predicate OctalField(field: text) {
    |field| >= 2 && field[|field| - 1] == 0
    && forall i :: 0 <= i < |field| - 1 ==> 48 <= field[i] <= 55
  }

  /** None also when the 64-bit result would overflow. */
  function ParseField(field: text): Option<nat> {
    if !OctalField(field) then None
    else
      var v := OctalValue(field[..|field| - 1]);
      if v > MAX_INT64 then None else Some(v)
  }

  lemma {:induction false} ValueOfOctal(v: nat, n: nat)
    requires v < Power8(n)
    ensures OctalValue(Octal(v, n)) == v
  {
    if n > 0 {
      ValueOfOctal(v / 8, n - 1);
      assert Octal(v, n)[..n - 1] == Octal(v / 8, n - 1);
    }
  }

  lemma {:induction false} OctalOfValue(s: text)
    requires forall i :: 0 <= i < |s| ==> 48 <= s[i] <= 55
    ensures OctalValue(s) < Power8(|s|) && Octal(OctalValue(s), |s|) == s
  {
    if s != [] {
      var front, v, d: int := s[..|s| - 1], OctalValue(s[..|s| - 1]), s[|s| - 1] - 48;
      OctalOfValue(front);
      OctalShift(v, d, |front|);
      assert OctalValue(s) == v * 8 + d;
      assert s == front + [48 + d];
    }
  }

  lemma OctalShift(v: nat, d: nat, n: nat)
    requires d < 8 && v < Power8(n)
    ensures v * 8 + d < Power8(n + 1) && Octal(v * 8 + d, n + 1) == Octal(v, n) + [48 + d]
  {
    assert (v * 8 + d) / 8 == v && (v * 8 + d) % 8 == d;
  }

  /** Whatever is written reads back. */
  lemma ParseFormat(v: int, length: nat)
    requires v <= MAX_INT64 && FormatField(v, length).Some?
    ensures ParseField(FormatField(v, length).value) == Some(v)
  {
    var f := FormatField(v, length).value;
    assert f[..length - 1] == Octal(v, length - 1);
    ValueOfOctal(v, length - 1);
  }

  /** Whatever parses is the one way to write its value in that length. */
  lemma FormatParse(field: text)
    requires ParseField(field).Some?
    ensures FormatField(ParseField(field).value, |field|) == Some(field)
  {
    OctalOfValue(field[..|field| - 1]);
    assert field == field[..|field| - 1] + [0];
  }

  lemma {:induction false} DigitsFit(v: nat, n: nat)
    requires n >= 1
    ensures |OctalDigits(v)| >= 1
    ensures |OctalDigits(v)| <= n <==> v < Power8(n)
    ensures |OctalDigits(v)| <= n ==>
              Octal(v, n) == seq(n - |OctalDigits(v)|, _ => 48) + OctalDigits(v)
  {
    if v < 8 {
      OctalZero(n - 1);
      assert Power8(n) >= 8 by { PowerPositive(n - 1); }
    } else if n == 1 {
      DigitsFit(v / 8, 1);
      assert Power8(1) == 8;
    } else {
      DigitsFit(v / 8, n - 1);
    }
  }

  lemma {:induction false} OctalZero(n: nat)
    ensures Octal(0, n) == seq(n, _ => 48)
  {
    if n > 0 {
      OctalZero(n - 1);
    }
  }

  lemma {:induction false} PowerPositive(n: nat)
    ensures Power8(n) >= 1
  {
    if n > 0 {
      PowerPositive(n - 1);
    }
  }

  /** h with bytes copied over it from position lo. */
  function Overwrite(h: seq<byte>, lo: nat, bytes: text): (r: seq<byte>)
    requires lo + |bytes| <= |h|
    ensures |r| == |h|
  {
    h[..lo] + bytes + h[lo + |bytes|..]
  }

  lemma OverwriteAt(h: seq<byte>, lo: nat, bytes: text)
    requires lo + |bytes| <= |h|
    ensures forall i :: 0 <= i < |h| ==>
              Overwrite(h, lo, bytes)[i] == if lo <= i < lo + |bytes| then bytes[i - lo] else h[i]
  {
  }

  /** copy(header[lo:], bytes). */
  method CopyInto(header: array<byte>, lo: nat, bytes: text)
    requires lo + |bytes| <= header.Length
    modifies header
    ensures header[..] == Overwrite(old(header[..]), lo, bytes)
  {
    forall i | 0 <= i < |bytes| {
      header[lo + i] := bytes[i];
    }
  }

  /** formatCanonicalTarOctal on the slice header[lo..hi]: zero digits first, then the value right-aligned. */
  method FormatCanonicalTarOctal(header: array<byte>, lo: nat, hi: nat, value: int) returns (ok: bool)
    requires lo <= hi <= header.Length
    modifies header
    ensures ok <==> FormatField(value, hi - lo).Some?
    ensures header[..] == if ok then Overwrite(old(header[..]), lo, FormatField(value, hi - lo).value) else old(header[..])
  {
    if hi - lo < 2 || value < 0 {
      return false;
    }
    var encoded := OctalDigits(value);
    DigitsFit(value, hi - lo - 1);
    if |encoded| > hi - lo - 1 {
      return false;
    }
    ghost var before := header[..];
    for i := lo to hi - 1
      invariant forall j :: 0 <= j < header.Length ==> header[j] == if lo <= j < i then 48 else before[j]
    {
      header[i] := 48;
    }
    var start := hi - 1 - |encoded|;
    forall i | 0 <= i < |encoded| {
      header[start + i] := encoded[i];
    }
    header[hi - 1] := 0;
    FieldInPlace(before, lo, hi, encoded, header[..]);
    return true;
  }

  lemma FieldInPlace(before: seq<byte>, lo: nat, hi: nat, encoded: text, after: seq<byte>)
    requires lo + 2 <= hi <= |before| == |after| && |encoded| <= hi - lo - 1
    requires forall i :: 0 <= i < |after| ==>
               after[i] == if i < lo || hi <= i then before[i]
                           else if i < hi - 1 - |encoded| then 48
                           else if i < hi - 1 then encoded[i - (hi - 1 - |encoded|)]
                           else 0
    ensures after == Overwrite(before, lo, seq(hi - lo - 1 - |encoded|, _ => 48) + encoded + [0])
  {
    OverwriteAt(before, lo, seq(hi - lo - 1 - |encoded|, _ => 48) + encoded + [0]);
  }

  method ParseCanonicalTarOctal(field: seq<byte>) returns (value: Option<nat>)
    ensures value == ParseField(field)
  {
    if |field| < 2 || field[|field| - 1] != 0 {
      return None;
    }
    for i := 0 to |field| - 1
      invariant forall j :: 0 <= j < i ==> 48 <= field[j] <= 55
    {
      if field[i] < 48 || field[i] > 55 {
        return None;
      }
    }
    var parsed := OctalValue(field[..|field| - 1]);
    return if parsed > MAX_INT64 then None else Some(parsed);
  }

  // ----- the header block

  function Sum(s: seq<byte>): nat {
    if s == [] then 0 else Sum(s[..|s| - 1]) + s[|s| - 1]
  }

  lemma {:induction false} SumBound(s: seq<byte>)
    ensures Sum(s) <= 255 * |s|
  {
    if s != [] {
      SumBound(s[..|s| - 1]);
    }
  }

  predicate Storable(name: text, mode: nat, size: int) {
    ValidEntryName(name) && ValidEntryMode(mode) && 0 <= size < Power8(11)
  }

  function Field(v: nat, length: nat): (f: text)
    requires length >= 2
    ensures |f| == length
  {
    Octal(v, length - 1) + [0]
  }

  const SPACES: text := [32, 32, 32, 32, 32, 32, 32, 32]
  const MAGIC: text := [117, 115, 116, 97, 114, 0] // ustar\0

  /** The fields of a block that are not fixed. */
  datatype Fields = Fields(name: text, mode: text, size: text, checksum: text)

  predicate Sized(f: Fields) {
    |f.name| <= 100 && |f.mode| == 8 && |f.size| == 12 && |f.checksum| == 8
  }

  const ZERO8: text := Field(0, 8)
  const TIME: text := Field(CANONICAL_SECONDS, 12)

  /** Byte i of the ustar block of a regular file; bytes outside every field are NUL. */
  function BlockByte(f: Fields, i: nat): byte
    requires Sized(f)
  {
    if i < 100 then if i < |f.name| then f.name[i] else 0
    else if i < 108 then f.mode[i - 100]
    else if i < 116 then ZERO8[i - 108]
    else if i < 124 then ZERO8[i - 116]
    else if i < 136 then f.size[i - 124]
    else if i < 148 then TIME[i - 136]
    else if i < 156 then f.checksum[i - 148]
    else if i == 156 then 48
    else if 257 <= i < 263 then MAGIC[i - 257]
    else if 263 <= i < 265 then 48
    else if 329 <= i < 337 then ZERO8[i - 329]
    else if 337 <= i < 345 then ZERO8[i - 337]
    else 0
  }

  function Block(f: Fields): (h: text)
    requires Sized(f)
    ensures |h| == BLOCK
    ensures forall i :: 0 <= i < BLOCK ==> h[i] == BlockByte(f, i)
  {
    seq(BLOCK, i requires 0 <= i => BlockByte(f, i))
  }

  function HeaderWith(name: text, mode: nat, size: nat, checksum: text): (h: text)
    requires |name| <= 100 && |checksum| == 8
    ensures |h| == BLOCK
  {
    Block(Fields(name, Field(mode, 8), Field(size, 12), checksum))
  }

  /** The byte sum of the header with its checksum field blanked. */
  function HeaderSum(name: text, mode: nat, size: nat): nat
    requires |name| <= 100
  {
    Sum(HeaderWith(name, mode, size, SPACES))
  }

  function HeaderBlock(name: text, mode: nat, size: nat): (h: text)
    requires |name| <= 100
    ensures |h| == BLOCK
  {
    HeaderWith(name, mode, size, Field(HeaderSum(name, mode, size), 7) + [32])
  }

  lemma PowerValues()
    ensures Power8(6) == 0x4_0000 && Power8(7) == 0x20_0000 && Power8(11) == 0x2_0000_0000
  {
    assert Power8(4) == 0x1000;
    assert Power8(9) == 0x800_0000;
  }

  /** Six digits always hold the sum, so checksum formatting never fails, and the stored field reads back as the sum. */
  lemma ChecksumStored(name: text, mode: nat, size: nat)
    requires |name| <= 100
    ensures HeaderSum(name, mode, size) < Power8(6)
    ensures FormatField(HeaderSum(name, mode, size), 7).Some?
    ensures ParseField(HeaderBlock(name, mode, size)[148..155]) == Some(HeaderSum(name, mode, size))
    ensures HeaderBlock(name, mode, size)[155] == 32
  {
    SumFits(HeaderWith(name, mode, size, SPACES));
    PowerValues();
    var sum := HeaderSum(name, mode, size);
    ParseFormat(sum, 7);
    assert HeaderBlock(name, mode, size)[148..155] == Field(sum, 7);
  }

  /** The fields the verifier parses before it rebuilds the block come out of a canonical block unchanged. */
  lemma HeaderReadsBack(name: text, mode: nat, size: nat)
    requires Storable(name, mode, size)
    ensures TrimNul(HeaderBlock(name, mode, size)[0..100]) == name
    ensures ParseField(HeaderBlock(name, mode, size)[100..108]) == Some(mode)
    ensures ParseField(HeaderBlock(name, mode, size)[124..136]) == Some(size)
  {
    PowerValues();
    BlockFields(Fields(name, Field(mode, 8), Field(size, 12), Field(HeaderSum(name, mode, size), 7) + [32]));
    TrimNulPadded(name, 100 - |name|);
    ParseFormat(mode, 8);
    ParseFormat(size, 12);
  }

  lemma BlockFields(f: Fields)
    requires Sized(f)
    ensures Block(f)[0..100] == f.name + Zeros(100 - |f.name|)
    ensures Block(f)[100..108] == f.mode && Block(f)[124..136] == f.size
  {
  }

  /** bytes.TrimRight(s, "\x00"). */
  function TrimNul(s: text): text {
    if s == [] || s[|s| - 1] != 0 then s else TrimNul(s[..|s| - 1])
  }

  lemma {:induction false} TrimNulPadded(name: text, n: nat)
    requires name != [] && name[|name| - 1] != 0
    ensures TrimNul(name + Zeros(n)) == name
  {
    if n == 0 {
      assert name + Zeros(0) == name;
    } else {
      TrimNulPadded(name, n - 1);
      assert (name + Zeros(n))[..|name| + n - 1] == name + Zeros(n - 1);
    }
  }

  /** canonicalTarHeader: the block is filled in place, the checksum last. */
  method CanonicalTarHeader(name: text, mode: nat, size: nat) returns (result: Option<seq<byte>>)
    ensures result == if Storable(name, mode, size) then Some(HeaderBlock(name, mode, size)) else None
  {
    if !ValidEntryName(name) || !ValidEntryMode(mode) {
      return None;
    }
    FixedFieldsFormat(mode);
    result := BuildHeader(name, mode, size);
  }

  method BuildHeader(name: text, mode: nat, size: nat) returns (result: Option<seq<byte>>)
    requires |name| <= 100 && FormatField(mode, 8) == Some(Field(mode, 8))
    requires FormatField(0, 8) == Some(ZERO8) && FormatField(CANONICAL_SECONDS, 12) == Some(TIME)
    ensures result == if FormatField(size, 12).Some? then Some(HeaderBlock(name, mode, size)) else None
  {
    var header := new byte[BLOCK](_ => 0);
    assert header[..] == Zeros(BLOCK);
    var ok := FillFields(header, name, mode, size);
    if !ok {
      return None;
    }
    StoreChecksum(header, Fields(name, Field(mode, 8), Field(size, 12), SPACES));
    return Some(header[..]);
  }

  ghost function WithChecksum(blank: Fields): Fields
    requires Sized(blank)
  {
    blank.(checksum := Field(Sum(Block(blank)), 7) + [32])
  }

  method StoreChecksum(header: array<byte>, ghost blank: Fields)
    requires Sized(blank) && header[..] == Block(blank)
    modifies header
    ensures header[..] == Block(WithChecksum(blank))
  {
    var checksum := SumBytes(header);
    SumFits(header[..]);
    var ok := FormatCanonicalTarOctal(header, 148, 155, checksum);
    CopyInto(header, 155, [32]);
    ChecksumInPlace(blank, Field(checksum, 7));
  }

  lemma SumFits(block: text)
    requires |block| == BLOCK
    ensures Sum(block) < Power8(6)
    ensures FormatField(Sum(block), 7) == Some(Field(Sum(block), 7))
  {
    SumBound(block);
    PowerValues();
  }

  /** The fields other than the checksum, which is left blank; refused when the size does not fit. */
  method FillFields(header: array<byte>, name: text, mode: nat, size: nat) returns (ok: bool)
    requires header.Length == BLOCK && header[..] == Zeros(BLOCK) && |name| <= 100
    requires FormatField(mode, 8) == Some(Field(mode, 8))
    requires FormatField(0, 8) == Some(ZERO8) && FormatField(CANONICAL_SECONDS, 12) == Some(TIME)
    modifies header
    ensures ok <==> FormatField(size, 12).Some?
    ensures ok ==> header[..] == Block(Fields(name, Field(mode, 8), Field(size, 12), SPACES))
  {
    ghost var fields := Fields(name, Field(mode, 8), Field(size, 12), SPACES);
    ok := FillStart(header, name, mode, size);
    if !ok {
      return;
    }
    FillNumbers(header);
    CopyInto(header, 156, [48]);
    CopyInto(header, 257, MAGIC);
    CopyInto(header, 263, [48, 48]);
    CopyInto(header, 148, SPACES);
    FieldsInPlace(fields);
  }

  method FillStart(header: array<byte>, name: text, mode: nat, size: nat) returns (ok: bool)
    requires header.Length == BLOCK && |name| <= 100
    requires FormatField(mode, 8) == Some(Field(mode, 8)) && FormatField(0, 8) == Some(ZERO8)
    modifies header
    ensures ok <==> FormatField(size, 12).Some?
    ensures ok ==> header[..] == FilledStart(old(header[..]), Fields(name, Field(mode, 8), Field(size, 12), SPACES))
  {
    CopyInto(header, 0, name);
    ok := FormatCanonicalTarOctal(header, 100, 108, mode);
    ok := FormatCanonicalTarOctal(header, 108, 116, 0);
    ok := FormatCanonicalTarOctal(header, 116, 124, 0);
    ok := FormatCanonicalTarOctal(header, 124, 136, size);
  }

  method FillNumbers(header: array<byte>)
    requires header.Length == BLOCK
    requires FormatField(0, 8) == Some(ZERO8) && FormatField(CANONICAL_SECONDS, 12) == Some(TIME)
    modifies header
    ensures header[..] == FilledNumbers(old(header[..]))
  {
    var ok := FormatCanonicalTarOctal(header, 136, 148, CANONICAL_SECONDS);
    ok := FormatCanonicalTarOctal(header, 329, 337, 0);
    ok := FormatCanonicalTarOctal(header, 337, 345, 0);
  }

  lemma FixedFieldsFormat(mode: nat)
    requires ValidEntryMode(mode)
    ensures FormatField(mode, 8) == Some(Field(mode, 8))
    ensures FormatField(0, 8) == Some(ZERO8) && FormatField(CANONICAL_SECONDS, 12) == Some(TIME)
  {
    PowerValues();
  }

  function FilledStart(h: text, f: Fields): (r: text)
    requires |h| == BLOCK && Sized(f)
    ensures |r| == BLOCK
  {
    Overwrite(Overwrite(Overwrite(Overwrite(Overwrite(h, 0, f.name), 100, f.mode), 108, ZERO8), 116, ZERO8), 124, f.size)
  }

  function FilledNumbers(h: text): (r: text)
    requires |h| == BLOCK
    ensures |r| == BLOCK
  {
    Overwrite(Overwrite(Overwrite(h, 136, TIME), 329, ZERO8), 337, ZERO8)
  }

  function FilledMarks(h: text, f: Fields): (r: text)
    requires |h| == BLOCK && Sized(f)
    ensures |r| == BLOCK
  {
    Overwrite(Overwrite(Overwrite(Overwrite(h, 156, [48]), 257, MAGIC), 263, [48, 48]), 148, f.checksum)
  }

  function Filled(h: text, f: Fields): (r: text)
    requires |h| == BLOCK && Sized(f)
    ensures |r| == BLOCK
  {
    FilledMarks(FilledNumbers(FilledStart(h, f)), f)
  }

  lemma OverwriteOne(h: seq<byte>, lo: nat, bytes: text, i: nat)
    requires lo + |bytes| <= |h| && i < |h|
    ensures Overwrite(h, lo, bytes)[i] == if lo <= i < lo + |bytes| then bytes[i - lo] else h[i]
  {
  }

  lemma FilledStartAt(h: text, f: Fields, i: nat)
    requires |h| == BLOCK && Sized(f) && i < BLOCK
    ensures FilledStart(h, f)[i]
         == if i < |f.name| then f.name[i]
            else if 100 <= i < 108 then f.mode[i - 100]
            else if 108 <= i < 116 then ZERO8[i - 108]
            else if 116 <= i < 124 then ZERO8[i - 116]
            else if 124 <= i < 136 then f.size[i - 124]
            else h[i]
  {
    var h0 := Overwrite(h, 0, f.name);
    var h1 := Overwrite(h0, 100, f.mode);
    var h2 := Overwrite(h1, 108, ZERO8);
    var h3 := Overwrite(h2, 116, ZERO8);
    OverwriteOne(h, 0, f.name, i);
    OverwriteOne(h0, 100, f.mode, i);
    OverwriteOne(h1, 108, ZERO8, i);
    OverwriteOne(h2, 116, ZERO8, i);
    OverwriteOne(h3, 124, f.size, i);
  }

  lemma FilledNumbersAt(h: text, i: nat)
    requires |h| == BLOCK && i < BLOCK
    ensures FilledNumbers(h)[i]
         == if 136 <= i < 148 then TIME[i - 136]
            else if 329 <= i < 337 then ZERO8[i - 329]
            else if 337 <= i < 345 then ZERO8[i - 337]
            else h[i]
  {
    var h0 := Overwrite(h, 136, TIME);
    var h1 := Overwrite(h0, 329, ZERO8);
    OverwriteOne(h, 136, TIME, i);
    OverwriteOne(h0, 329, ZERO8, i);
    OverwriteOne(h1, 337, ZERO8, i);
  }

  lemma FilledMarksAt(h: text, f: Fields, i: nat)
    requires |h| == BLOCK && Sized(f) && i < BLOCK
    ensures FilledMarks(h, f)[i]
         == if i == 156 then 48
            else if 257 <= i < 263 then MAGIC[i - 257]
            else if 263 <= i < 265 then 48
            else if 148 <= i < 156 then f.checksum[i - 148]
            else h[i]
  {
    var h0 := Overwrite(h, 156, [48]);
    var h1 := Overwrite(h0, 257, MAGIC);
    var h2 := Overwrite(h1, 263, [48, 48]);
    OverwriteOne(h, 156, [48], i);
    OverwriteOne(h0, 257, MAGIC, i);
    OverwriteOne(h1, 263, [48, 48], i);
    OverwriteOne(h2, 148, f.checksum, i);
  }

  /** The writes above, whatever their order, leave the block. */
  lemma FieldsInPlace(f: Fields)
    requires Sized(f)
    ensures Filled(Zeros(BLOCK), f) == Block(f)
  {
    var h := Zeros(BLOCK);
    var start := FilledStart(h, f);
    var numbers := FilledNumbers(start);
    forall i | 0 <= i < BLOCK ensures FilledMarks(numbers, f)[i] == Block(f)[i] {
      FilledStartAt(h, f, i);
      FilledNumbersAt(start, i);
      FilledMarksAt(numbers, f, i);
    }
  }

  lemma ChecksumInPlace(f: Fields, digits: text)
    requires Sized(f) && |digits| == 7
    ensures Overwrite(Overwrite(Block(f), 148, digits), 155, [32]) == Block(f.(checksum := digits + [32]))
  {
    OverwriteAt(Block(f), 148, digits);
    OverwriteAt(Overwrite(Block(f), 148, digits), 155, [32]);
  }

  method SumBytes(header: array<byte>) returns (checksum: nat)
    ensures checksum == Sum(header[..])
  {
    checksum := 0;
    for index := 0 to header.Length
      invariant checksum == Sum(header[..index])
    {
      assert header[..index + 1][..index] == header[..index];
      checksum := checksum + header[index];
    }
    assert header[..header.Length] == header[..];
  }

  /** Zero bytes that fill the last block of a file; Go writes it as -size & 511. */
  function Padding(size: nat): (p: nat)
    ensures p < BLOCK && (size + p) % BLOCK == 0
  {
    var rest := size % BLOCK;
    var p := if rest == 0 then 0 else BLOCK - rest;
    assert size + p == BLOCK * (size / BLOCK + if rest == 0 then 0 else 1);
    assert p == (BLOCK - rest) % BLOCK;
    (BLOCK - rest) % BLOCK
  }

  // ----- the block, byte by byte

  lemma OctalDigit(v: nat, d: nat, n: nat, digits: text)
    requires d < 8 && Octal(v, n) == digits
    ensures Octal(v * 8 + d, n + 1) == digits + [48 + d]
  {
    assert (v * 8 + d) / 8 == v && (v * 8 + d) % 8 == d;
  }

  lemma TimeField()
    ensures TIME == [48, 50, 50, 54, 51, 53, 50, 51, 48, 48, 48, 0] // 02263523000
  {
    OctalZero(1);
    OctalDigit(0, 2, 1, [48]);
    OctalDigit(2, 2, 2, [48, 50]);
    OctalDigit(18, 6, 3, [48, 50, 50]);
    OctalDigit(150, 3, 4, [48, 50, 50, 54]);
    OctalDigit(1203, 5, 5, [48, 50, 50, 54, 51]);
    OctalDigit(9629, 2, 6, [48, 50, 50, 54, 51, 53]);
    OctalDigit(77034, 3, 7, [48, 50, 50, 54, 51, 53, 50]);
    OctalDigit(616275, 0, 8, [48, 50, 50, 54, 51, 53, 50, 51]);
    OctalDigit(4930200, 0, 9, [48, 50, 50, 54, 51, 53, 50, 51, 48]);
    OctalDigit(39441600, 0, 10, [48, 50, 50, 54, 51, 53, 50, 51, 48, 48]);
  }

  lemma ZeroField()
    ensures ZERO8 == [48, 48, 48, 48, 48, 48, 48, 0]
  {
    OctalZero(7);
  }

  /** Everything in a canonical header that the entry does not determine. */
  lemma FixedBytes(name: text, mode: nat, size: nat)
    requires |name| <= 100
    ensures
      var h := HeaderBlock(name, mode, size);
      && h[..|name|] == name && (forall i :: |name| <= i < 100 ==> h[i] == 0)
      && h[108..116] == [48, 48, 48, 48, 48, 48, 48, 0] && h[116..124] == [48, 48, 48, 48, 48, 48, 48, 0]
      && h[136..148] == [48, 50, 50, 54, 51, 53, 50, 51, 48, 48, 48, 0]
      && h[156] == 48 && (forall i :: 157 <= i < 257 ==> h[i] == 0)
      && h[257..265] == [117, 115, 116, 97, 114, 0, 48, 48] && (forall i :: 265 <= i < 329 ==> h[i] == 0)
      && h[329..337] == [48, 48, 48, 48, 48, 48, 48, 0] && h[337..345] == [48, 48, 48, 48, 48, 48, 48, 0]
      && (forall i :: 345 <= i < 512 ==> h[i] == 0)
  {
    ZeroField();
    TimeField();
  }

  /** The checksum is the sum of the block's own bytes, with its field read as blanks. */
  lemma ChecksumOfBlock(name: text, mode: nat, size: nat)
    requires |name| <= 100
    ensures
      var h := HeaderBlock(name, mode, size);
      ParseField(h[148..155]) == Some(Sum(h[..148] + [32, 32, 32, 32, 32, 32, 32, 32] + h[156..])) && h[155] == 32
  {
    var h := HeaderBlock(name, mode, size);
    ChecksumStored(name, mode, size);
    assert h[..148] + SPACES + h[156..] == HeaderWith(name, mode, size, SPACES);
  }
}
