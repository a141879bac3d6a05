/** verifyTarGzipArchive (tools/archivepack/verify.go) over the decompressed stream: one stream is accepted. */
module TarArchive {
  import opened Bytes
  import opened Entries
  import opened Streams
  import opened TarHeader

  /** One entry as it must stand in the stream: header, content, zero padding. */
  function TarEntry(spec: InputSpec, content: seq<byte>): seq<byte>
    requires |spec.name| <= 100
  {
    HeaderBlock(spec.name, spec.mode, |content|) + (content + Zeros(Padding(|content|)))
  }

  predicate StorableAll(specs: seq<InputSpec>, contents: seq<seq<byte>>)
    requires |specs| == |contents|
  {
    specs != [] ==> Storable(specs[0].name, specs[0].mode, |contents[0]|) && StorableAll(specs[1..], contents[1..])
  }

  /** The canonical stream: every entry in order, then exactly two zero blocks. */
  function TarStream(specs: seq<InputSpec>, contents: seq<seq<byte>>): seq<byte>
    requires |specs| == |contents| && StorableAll(specs, contents)
  {
    if specs == [] then Zeros(2 * BLOCK)
    else TarEntry(specs[0], contents[0]) + TarStream(specs[1..], contents[1..])
  }

  /** The stream is the canonical one; nothing is when an entry cannot be stored in ustar. */
  ghost predicate Canonical(specs: seq<InputSpec>, contents: seq<seq<byte>>, stream: seq<byte>)
    requires |specs| == |contents|
  {
    StorableAll(specs, contents) && stream == TarStream(specs, contents)
  }

  /** The stream also determines the entries: no two archives' descriptions share one. */
  lemma {:induction false} StreamDeterminesEntries(specs: seq<InputSpec>, contents: seq<seq<byte>>,
                                                   specs': seq<InputSpec>, contents': seq<seq<byte>>, stream: seq<byte>)
    requires |specs| == |contents| && |specs'| == |contents'|
    requires Canonical(specs, contents, stream) && Canonical(specs', contents', stream)
    ensures contents == contents' && |specs| == |specs'|
    ensures forall i :: 0 <= i < |specs| ==> specs[i].name == specs'[i].name && specs[i].mode == specs'[i].mode
    decreases |specs|
  {
    EmptyOnlyWhenZero(specs, contents, stream);
    EmptyOnlyWhenZero(specs', contents', stream);
    if specs != [] && specs' != [] {
      EntryStep(specs, contents, stream);
      EntryStep(specs', contents', stream);
      SameFirstEntry(specs[0], contents[0], specs'[0], contents'[0], stream);
      var rest := stream[BLOCK..][|contents[0]| + Padding(|contents[0]|)..];
      StreamDeterminesEntries(specs[1..], contents[1..], specs'[1..], contents'[1..], rest);
      HeadAndTail(specs, contents, specs', contents');
    }
  }

  lemma HeadAndTail(specs: seq<InputSpec>, contents: seq<seq<byte>>, specs': seq<InputSpec>, contents': seq<seq<byte>>)
    requires |specs| == |specs'| && specs != [] && contents != [] && contents' != []
    requires contents[0] == contents'[0] && contents[1..] == contents'[1..]
    requires specs[0].name == specs'[0].name && specs[0].mode == specs'[0].mode
    requires forall i :: 0 <= i < |specs| - 1 ==> specs[1..][i].name == specs'[1..][i].name && specs[1..][i].mode == specs'[1..][i].mode
    ensures contents == contents'
    ensures forall i :: 0 <= i < |specs| ==> specs[i].name == specs'[i].name && specs[i].mode == specs'[i].mode
  {
    assert contents == [contents[0]] + contents[1..] && contents' == [contents'[0]] + contents'[1..];
    assert forall i :: 0 < i < |specs| ==> specs[i] == specs[1..][i - 1] && specs'[i] == specs'[1..][i - 1];
  }

  lemma EmptyOnlyWhenZero(specs: seq<InputSpec>, contents: seq<seq<byte>>, stream: seq<byte>)
    requires |specs| == |contents| && Canonical(specs, contents, stream)
    ensures stream != [] && (specs == [] <==> stream[0] == 0)
  {
    if specs != [] {
      EntryStep(specs, contents, stream);
      HeaderStartsNonZero(specs[0], stream, |contents[0]|);
    }
  }

  lemma SameFirstEntry(spec: InputSpec, content: seq<byte>, spec': InputSpec, content': seq<byte>, stream: seq<byte>)
    requires StartsWithHeader(spec, stream, |content|) && StartsWithBody(content, stream[BLOCK..])
    requires StartsWithHeader(spec', stream, |content'|) && StartsWithBody(content', stream[BLOCK..])
    ensures spec.name == spec'.name && spec.mode == spec'.mode && content == content'
  {
    HeaderReadsBack(spec.name, spec.mode, |content|);
    HeaderReadsBack(spec'.name, spec'.mode, |content'|);
    BodyParts(content, stream[BLOCK..]);
    BodyParts(content', stream[BLOCK..]);
  }

  lemma HeaderStartsNonZero(spec: InputSpec, stream: seq<byte>, n: nat)
    requires StartsWithHeader(spec, stream, n)
    ensures stream[0] != 0
  {
    assert stream[0] == stream[..BLOCK][0] == spec.name[0];
  }

  predicate AllZero(s: seq<byte>) {
    forall i :: 0 <= i < |s| ==> s[i] == 0
  }

  /** io.ReadFull into a fresh slice. */
  method ReadExactly(reader: Reader, size: nat) returns (block: Option<seq<byte>>)
    requires reader.left.None?
    modifies reader, reader.source
    ensures reader.left.None?
    ensures block.Some? <==> size <= |old(reader.source.remaining)|
    ensures block.Some? ==> block.value == old(reader.source.remaining)[..size]
                            && reader.source.remaining == old(reader.source.remaining)[size..]
  {
    var buffer := new byte[size](_ => 0);
    assert reader.Visible() == reader.source.remaining;
    var n, err := ReadFull(reader, buffer);
    if err != NoError {
      return None;
    }
    assert n == size && buffer[..n] == buffer[..];
    return Some(buffer[..]);
  }

  /** A stream that starts with the canonical header of some size. */
  ghost predicate StartsWithHeader(spec: InputSpec, stream: seq<byte>, size: nat) {
    Storable(spec.name, spec.mode, size)
    && BLOCK <= |stream| && stream[..BLOCK] == HeaderBlock(spec.name, spec.mode, size)
  }

  /** Reads one header block and returns the size it declares. */
  method ReadHeader(reader: Reader, spec: InputSpec) returns (size: Option<nat>)
    requires reader.left.None?
    modifies reader, reader.source
    ensures reader.left.None?
    ensures size.Some? ==> StartsWithHeader(spec, old(reader.source.remaining), size.value)
                           && reader.source.remaining == old(reader.source.remaining)[BLOCK..]
    ensures size.None? ==> forall n: nat :: !StartsWithHeader(spec, old(reader.source.remaining), n)
  {
    var header := ReadExactly(reader, BLOCK);
    if header.None? {
      return None;
    }
    size := CheckHeader(header.value, spec);
  }

  method CheckHeader(header: seq<byte>, spec: InputSpec) returns (size: Option<nat>)
    requires |header| == BLOCK
    ensures size.Some? ==> Storable(spec.name, spec.mode, size.value)
                           && header == HeaderBlock(spec.name, spec.mode, size.value)
    ensures size.None? ==> forall n: nat :: Storable(spec.name, spec.mode, n) ==> header != HeaderBlock(spec.name, spec.mode, n)
  {
    forall n: nat | Storable(spec.name, spec.mode, n) && header == HeaderBlock(spec.name, spec.mode, n)
      ensures TrimNul(header[0..100]) == spec.name && ParseField(header[100..108]) == Some(spec.mode)
      ensures ParseField(header[124..136]) == Some(n)
    {
      HeaderReadsBack(spec.name, spec.mode, n);
    }
    if TrimNul(header[0..100]) != spec.name {
      return None;
    }
    var mode := ParseCanonicalTarOctal(header[100..108]);
    if mode != Some(spec.mode) {
      return None;
    }
    size := ParseCanonicalTarOctal(header[124..136]);
    if size.None? {
      return None;
    }
    var expected := CanonicalTarHeader(spec.name, spec.mode, size.value);
    if expected != Some(header) {
      return None;
    }
  }

  ghost predicate StartsWithBody(content: seq<byte>, stream: seq<byte>) {
    content + Zeros(Padding(|content|)) <= stream
  }

  lemma BodyParts(content: seq<byte>, stream: seq<byte>)
    ensures
      var pad := Padding(|content|);
      StartsWithBody(content, stream) <==>
        |content| + pad <= |stream| && stream[..|content|] == content && AllZero(stream[|content|..][..pad])
    ensures StartsWithBody(content, stream) ==>
              stream == content + Zeros(Padding(|content|)) + stream[|content| + Padding(|content|)..]
  {
    var pad := Padding(|content|);
    if |content| + pad <= |stream| && stream[..|content|] == content && AllZero(stream[|content|..][..pad]) {
      assert stream[|content|..][..pad] == Zeros(pad);
      assert stream == stream[..|content|] + stream[|content|..][..pad] + stream[|content| + pad..];
    }
    if StartsWithBody(content, stream) {
      assert stream[..|content|] == content by { assert stream[..|content| + pad] == content + Zeros(pad); }
      forall i | 0 <= i < pad ensures stream[|content|..][..pad][i] == 0 {
        assert stream[|content| + i] == (content + Zeros(pad))[|content| + i];
      }
    }
  }

  /** Compares an entry's content with the reviewed input and checks the padding behind it. */
  method ReadBody(reader: Reader, size: nat, content: seq<byte>) returns (ok: bool)
    requires reader.left.None?
    modifies reader, reader.source
    ensures reader.left.None?
    ensures ok ==> size == |content| && StartsWithBody(content, old(reader.source.remaining))
    ensures reader.source.end == Eof && size == |content| && StartsWithBody(content, old(reader.source.remaining)) ==> ok
    ensures ok ==> reader.source.remaining == old(reader.source.remaining)[|content| + Padding(|content|)..]
  {
    ghost var stream := reader.source.remaining;
    BodyParts(content, stream);
    var limited := new Reader(reader.source, Some(size));
    var reviewedFile := new Stream(content, Eof);
    var reviewed := new Reader(reviewedFile, None);
    ok := VerifyEntryContent(limited, size, reviewed, |content|);
    if !ok {
      return;
    }
    assert stream[..size] == content;
    var paddingSize := Padding(size);
    if paddingSize != 0 {
      var padding := ReadExactly(reader, paddingSize);
      if padding.None? || !AllZero(padding.value) {
        return false;
      }
    }
  }

  lemma {:induction false} EntryStep(specs: seq<InputSpec>, contents: seq<seq<byte>>, stream: seq<byte>)
    requires |specs| == |contents| && specs != []
    ensures
      var n := |contents[0]|;
      Canonical(specs, contents, stream) <==>
        StartsWithHeader(specs[0], stream, n) && StartsWithBody(contents[0], stream[BLOCK..])
        && Canonical(specs[1..], contents[1..], stream[BLOCK..][n + Padding(n)..])
  {
    var n := |contents[0]|;
    if StorableAll(specs, contents) {
      var header := HeaderBlock(specs[0].name, specs[0].mode, n);
      var body := contents[0] + Zeros(Padding(n));
      var rest := TarStream(specs[1..], contents[1..]);
      Regroup(header, body, rest);
      if BLOCK <= |stream| {
        Halves(stream, BLOCK);
        SplitEqual(header, body + rest, stream[..BLOCK], stream[BLOCK..]);
        if |body| <= |stream[BLOCK..]| {
          Halves(stream[BLOCK..], |body|);
          SplitEqual(body, rest, stream[BLOCK..][..|body|], stream[BLOCK..][|body|..]);
        }
      }
    }
  }

  /** The verifier accepts exactly the canonical stream, read without an error, however the reader fragments it. */
  method VerifyTarStream(source: Stream, specs: seq<InputSpec>, contents: seq<seq<byte>>) returns (ok: bool)
    requires |specs| == |contents|
    modifies source
    ensures ok <==> source.end == Eof && Canonical(specs, contents, old(source.remaining))
  {
    var reader := new Reader(source, None);
    for k := 0 to |specs|
      invariant reader.left.None?
      invariant Canonical(specs, contents, old(source.remaining)) <==> Canonical(specs[k..], contents[k..], source.remaining)
    {
      ghost var stream := source.remaining;
      EntryStep(specs[k..], contents[k..], stream);
      var size := ReadHeader(reader, specs[k]);
      if size.None? {
        return false;
      }
      HeaderFixesSize(specs[k], stream, size.value, |contents[k]|);
      var same := ReadBody(reader, size.value, contents[k]);
      if !same {
        return false;
      }
    }
    ok := VerifyEnd(reader);
    assert specs[|specs|..] == [];
  }

  lemma HeaderFixesSize(spec: InputSpec, stream: seq<byte>, n: nat, m: nat)
    ensures StartsWithHeader(spec, stream, n) && StartsWithHeader(spec, stream, m) ==> n == m
  {
    if StartsWithHeader(spec, stream, n) && StartsWithHeader(spec, stream, m) {
      HeaderReadsBack(spec.name, spec.mode, n);
      HeaderReadsBack(spec.name, spec.mode, m);
    }
  }

  /** Two zero blocks, then nothing. */
  method VerifyEnd(reader: Reader) returns (ok: bool)
    requires reader.left.None?
    modifies reader, reader.source
    ensures ok <==> reader.source.end == Eof && old(reader.source.remaining) == Zeros(2 * BLOCK)
  {
    ghost var stream := reader.source.remaining;
    for terminator := 0 to 2
      invariant reader.left.None?
      invariant terminator * BLOCK <= |stream| && AllZero(stream[..terminator * BLOCK])
      invariant reader.source.remaining == stream[terminator * BLOCK..]
    {
      var block := ReadExactly(reader, BLOCK);
      if block.None? {
        return false;
      }
      assert stream[..(terminator + 1) * BLOCK] == stream[..terminator * BLOCK] + block.value;
      if !AllZero(block.value) {
        ghost var i :| 0 <= i < BLOCK && block.value[i] != 0;
        assert stream[terminator * BLOCK + i] != 0;
        return false;
      }
    }
    var trailing, err := reader.Read(1);
    ok := trailing == [] && err == Eof;
    if ok {
      assert stream == stream[..2 * BLOCK];
    }
  }
}
