/** Byte streams behind arbitrary fragmentation, and the two loops that read them through a fixed buffer:
    copyDeterministic (tools/archivepack/main.go) and verifyEntryContent (tools/archivepack/verify.go). */
module Streams {
  import opened Bytes

  const DETERMINISTIC_BUFFER: nat := 32768

  datatype ReadError = NoError | Eof | UnexpectedEof | OtherError

  type StreamEnd = e: ReadError | e != NoError witness Eof

  /** An io.Reader: the bytes it will still deliver and the error it raises after them, either together
      with the last bytes or on the next call. A read error in mid-file is an early end with that error. */
  class Stream {
    var remaining: seq<byte>
    const end: StreamEnd

    constructor (content: seq<byte>, end: StreamEnd)
      ensures remaining == content && this.end == end
    {
      remaining := content;
      this.end := end;
    }

    /** Any positive number of bytes may come back, whatever the caller asked for. */
    method Read(limit: nat) returns (data: seq<byte>, err: ReadError)
      requires limit > 0
      modifies this
      ensures data + remaining == old(remaining) && |data| <= limit
      ensures err == NoError ==> data != []
      ensures err != NoError ==> remaining == [] && err == end
    {
      if remaining == [] {
        return [], end;
      }
      var n: nat :| 0 < n <= limit && n <= |remaining|;
      data, err := remaining[..n], NoError;
      remaining := remaining[n..];
      var together: bool := *;
      if remaining == [] && together {
        err := end;
      }
    }
  }

  /** A stream read directly, or through io.LimitReader when a budget is left. */
  class Reader {
    const source: Stream
    var left: Option<nat>

    constructor (source: Stream, left: Option<nat>)
      ensures this.source == source && this.left == left
    {
      this.source := source;
      this.left := left;
    }

    ghost function Visible(): seq<byte>
      reads this, source
    {
      VisiblePart(source.remaining, left)
    }

    /** The end can only be reported as an EOF: the stream ends so, or the limit is reached first. */
    ghost predicate EndsCleanly()
      reads this, source
    {
      Done(source.end) || (left.Some? && left.value < |source.remaining|)
    }

    /** The end may be reported as an EOF: also when the limit falls on the very end. Without a limit, as above. */
    ghost predicate MayEndCleanly()
      reads this, source
    {
      Done(source.end) || (left.Some? && left.value <= |source.remaining|)
    }

    method Read(limit: nat) returns (data: seq<byte>, err: ReadError)
      requires limit > 0
      modifies this, source
      ensures data + Visible() == old(Visible()) && |data| <= limit
      ensures data + source.remaining == old(source.remaining)
      ensures left == Spend(old(left), |data|)
      ensures err == NoError ==> data != []
      ensures err != NoError ==> Visible() == [] && MayEndWith(err, source.remaining, source.end, left)
    {
      if left == Some(0) {
        return [], Eof;
      }
      var ask := if left.Some? && left.value < limit then left.value else limit;
      data, err := source.Read(ask);
      left := Spend(left, |data|);
    }
  }

  function VisiblePart(remaining: seq<byte>, left: Option<nat>): seq<byte> {
    if left.Some? && left.value < |remaining| then remaining[..left.value] else remaining
  }

  function Spend(left: Option<nat>, n: nat): Option<nat> {
    if left.Some? && n <= left.value then Some(left.value - n) else left
  }

  /** The errors that can mark the end: the limit's EOF once the budget is covered, the stream's own when it is not. */
  ghost predicate MayEndWith(e: ReadError, remaining: seq<byte>, end: StreamEnd, left: Option<nat>) {
    (e == Eof && left.Some? && left.value <= |remaining|)
    || (e == end && (left.None? || |remaining| <= left.value))
  }

  /** Both EOF and ErrUnexpectedEOF count as the end, also when the stream raised the latter itself. */
  predicate Done(e: ReadError) {
    e == Eof || e == UnexpectedEof
  }

  method Put(buffer: array<byte>, at: nat, data: seq<byte>)
    requires at + |data| <= buffer.Length
    modifies buffer
    ensures buffer[..at + |data|] == old(buffer[..at]) + data
  {
    forall i | 0 <= i < |data| {
      buffer[at + i] := data[i];
    }
  }

  lemma TakeMore(s: seq<byte>, n: nat, data: seq<byte>)
    requires n <= |s| && data <= s[n..]
    ensures n + |data| <= |s| && s[..n] + data == s[..n + |data|] && s[n..][|data|..] == s[n + |data|..]
  {
  }

  /** io.ReadFull. An incomplete read reports the end; after a clean end that is always an EOF of some kind. */
  method ReadFull(r: Reader, buffer: array<byte>) returns (n: nat, err: ReadError)
    modifies r, r.source, buffer
    ensures n == (if |old(r.Visible())| < buffer.Length then |old(r.Visible())| else buffer.Length)
    ensures buffer[..n] == old(r.Visible())[..n]
    ensures r.Visible() == old(r.Visible())[n..]
    ensures r.source.remaining == old(r.source.remaining)[n..]
    ensures r.left == Spend(old(r.left), n)
    ensures err == NoError <==> n == buffer.Length
    ensures old(r.EndsCleanly()) ==> r.EndsCleanly() && (err == NoError || Done(err))
    ensures err != NoError && r.left.None? ==> err == if n > 0 && r.source.end == Eof then UnexpectedEof else r.source.end
    ensures r.MayEndCleanly() == old(r.MayEndCleanly()) && (Done(err) ==> r.MayEndCleanly())
  {
    n, err := 0, NoError;
    ghost var visible, remaining := r.Visible(), r.source.remaining;
    while n < buffer.Length && err == NoError
      invariant n <= buffer.Length && n <= |visible| <= |remaining|
      invariant buffer[..n] == visible[..n]
      invariant r.Visible() == visible[n..]
      invariant r.source.remaining == remaining[n..]
      invariant r.left == Spend(old(r.left), n)
      invariant r.left.Some? ==> r.left.value == old(r.left).value - n
      invariant old(r.EndsCleanly()) ==> r.EndsCleanly() && (err == NoError || Done(err))
      invariant err != NoError ==> n == |visible|
      invariant err != NoError && r.left.None? ==> err == r.source.end
      invariant r.MayEndCleanly() == old(r.MayEndCleanly()) && (Done(err) ==> r.MayEndCleanly())
      decreases |visible| - n, if err == NoError then 1 else 0
    {
      var data;
      data, err := r.Read(buffer.Length - n);
      Put(buffer, n, data);
      TakeMore(visible, n, data);
      TakeMore(remaining, n, data);
      n := n + |data|;
    }
    if n == buffer.Length {
      err := NoError;
    } else if n > 0 && err == Eof {
      err := UnexpectedEof;
    }
  }

  /** Compares what the archive holds with the reviewed input, one buffer at a time. */
  method VerifyEntryContent(actual: Reader, actualSize: int, expected: Reader, expectedSize: int) returns (ok: bool)
    requires actual.source != expected.source && actual != expected
    modifies actual, actual.source, expected, expected.source
    ensures ok ==> actualSize == expectedSize && old(actual.Visible()) == old(expected.Visible())
    ensures ok ==> old(actual.MayEndCleanly()) && old(expected.MayEndCleanly())
    ensures ok ==> actual.source.remaining == old(actual.source.remaining)[|old(actual.Visible())|..]
    ensures
      actualSize == expectedSize && old(actual.Visible()) == old(expected.Visible())
      && old(actual.EndsCleanly())
      && old(expected.EndsCleanly())
      ==> ok
  {
    if actualSize != expectedSize {
      return false;
    }
    var actualBuffer, expectedBuffer := new byte[DETERMINISTIC_BUFFER], new byte[DETERMINISTIC_BUFFER];
    ok := CompareAll(actual, expected, actualBuffer, expectedBuffer);
  }

  /** The loop over both streams. */
  method CompareAll(actual: Reader, expected: Reader, actualBuffer: array<byte>, expectedBuffer: array<byte>) returns (ok: bool)
    requires actual.source != expected.source && actual != expected && actualBuffer != expectedBuffer
    requires actualBuffer.Length == expectedBuffer.Length == DETERMINISTIC_BUFFER
    modifies actual, actual.source, expected, expected.source, actualBuffer, expectedBuffer
    ensures ok ==> old(actual.Visible()) == old(expected.Visible())
    ensures ok ==> old(actual.MayEndCleanly()) && old(expected.MayEndCleanly())
    ensures ok ==> actual.source.remaining == old(actual.source.remaining)[|old(actual.Visible())|..]
    ensures old(actual.Visible()) == old(expected.Visible()) && old(actual.EndsCleanly()) && old(expected.EndsCleanly()) ==> ok
  {
    ghost var wanted, given, all := actual.Visible(), expected.Visible(), actual.source.remaining;
    ghost var actualEnds, expectedEnds := actual.EndsCleanly(), expected.EndsCleanly();
    ghost var actualMayEnd, expectedMayEnd := actual.MayEndCleanly(), expected.MayEndCleanly();
    ghost var done: nat := 0;
    while true
      invariant done <= |wanted| <= |all| && EqualSoFar(wanted, given, done, actual.Visible(), expected.Visible())
      invariant actual.source.remaining == all[done..]
      invariant (actualEnds ==> actual.EndsCleanly()) && (expectedEnds ==> expected.EndsCleanly())
      invariant actual.MayEndCleanly() == actualMayEnd && expected.MayEndCleanly() == expectedMayEnd
      decreases |wanted| - done
    {
      ghost var a, e := actual.Visible(), expected.Visible();
      var same, read, actualErr, expectedErr := ReadBoth(actual, expected, actualBuffer, expectedBuffer);
      CompareStep(wanted, given, all, done, a, e, DETERMINISTIC_BUFFER);
      if !same {
        return false;
      }
      done := done + read;
      if Done(actualErr) || Done(expectedErr) {
        assert done == |wanted|;
        return Done(actualErr) && Done(expectedErr);
      }
      if actualErr != NoError || expectedErr != NoError {
        return false;
      }
    }
  }

  ghost predicate EqualSoFar(wanted: seq<byte>, given: seq<byte>, done: nat, a: seq<byte>, e: seq<byte>) {
    done <= |wanted| && done <= |given| && wanted[..done] == given[..done] && a == wanted[done..] && e == given[done..]
  }

  /** What the next buffer shows: a difference, the common end, or agreement so far. */
  lemma CompareStep(wanted: seq<byte>, given: seq<byte>, all: seq<byte>, done: nat, a: seq<byte>, e: seq<byte>, size: nat)
    requires EqualSoFar(wanted, given, done, a, e) && |wanted| <= |all|
    ensures UpTo(a, size) != UpTo(e, size) ==> wanted != given
    ensures UpTo(a, size) == UpTo(e, size) ==>
              var read := |UpTo(a, size)|;
              done + read <= |wanted| && read <= |e| && EqualSoFar(wanted, given, done + read, a[read..], e[read..])
              && all[done..][read..] == all[done + read..] && (read < size ==> done + read == |wanted| && wanted == given)
  {
    if UpTo(a, size) == UpTo(e, size) {
      var read := |UpTo(a, size)|;
      assert a[..read] == UpTo(a, size) == e[..read];
      ExtendEqual(wanted, given, done, read);
      if read < size {
        assert wanted[..done + read] == wanted && given[..done + read] == given;
      }
    }
  }

  function UpTo(s: seq<byte>, n: nat): seq<byte> {
    if |s| < n then s else s[..n]
  }

  /** One pass of the loop: the next buffer of each side, and whether they hold the same. */
  method ReadBoth(actual: Reader, expected: Reader, actualBuffer: array<byte>, expectedBuffer: array<byte>)
    returns (same: bool, read: nat, actualErr: ReadError, expectedErr: ReadError)
    requires actual.source != expected.source && actual != expected && actualBuffer != expectedBuffer
    requires actualBuffer.Length == expectedBuffer.Length
    modifies actual, actual.source, expected, expected.source, actualBuffer, expectedBuffer
    ensures same <==> UpTo(old(actual.Visible()), actualBuffer.Length) == UpTo(old(expected.Visible()), actualBuffer.Length)
    ensures same ==> read == |UpTo(old(actual.Visible()), actualBuffer.Length)|
    ensures same ==> actual.Visible() == old(actual.Visible())[read..] && expected.Visible() == old(expected.Visible())[read..]
    ensures same ==> actual.source.remaining == old(actual.source.remaining)[read..]
    ensures same ==> (actualErr == NoError <==> read == actualBuffer.Length) && (expectedErr == NoError <==> read == actualBuffer.Length)
    ensures old(actual.EndsCleanly()) ==> actual.EndsCleanly() && (actualErr == NoError || Done(actualErr))
    ensures old(expected.EndsCleanly()) ==> expected.EndsCleanly() && (expectedErr == NoError || Done(expectedErr))
    ensures actual.MayEndCleanly() == old(actual.MayEndCleanly()) && (Done(actualErr) ==> actual.MayEndCleanly())
    ensures expected.MayEndCleanly() == old(expected.MayEndCleanly()) && (Done(expectedErr) ==> expected.MayEndCleanly())
  {
    var expectedRead: nat;
    read, actualErr := ReadFull(actual, actualBuffer);
    expectedRead, expectedErr := ReadFull(expected, expectedBuffer);
    same := read == expectedRead && actualBuffer[..read] == expectedBuffer[..expectedRead];
  }

  lemma ExtendEqual(a: seq<byte>, b: seq<byte>, done: nat, n: nat)
    requires done + n <= |a| && done + n <= |b|
    requires a[..done] == b[..done] && a[done..][..n] == b[done..][..n]
    ensures a[..done + n] == b[..done + n]
  {
    assert a[..done + n] == a[..done] + a[done..][..n];
    assert b[..done + n] == b[..done] + b[done..][..n];
  }

  /** Without limits the condition is exact: sizes, bytes, and an end that is some EOF on both sides. */
  method VerifyDirect(actual: Stream, actualSize: int, expected: Stream, expectedSize: int) returns (ok: bool)
    requires actual != expected
    modifies actual, expected
    ensures ok <==> actualSize == expectedSize && old(actual.remaining) == old(expected.remaining)
                    && Done(actual.end) && Done(expected.end)
  {
    var a := new Reader(actual, None);
    var e := new Reader(expected, None);
    ok := VerifyEntryContent(a, actualSize, e, expectedSize);
  }

  /** A stream cut short that says so itself passes for a complete one. */
  method TruncatedPasses(content: seq<byte>, size: int) returns (ok: bool)
    ensures ok
  {
    var actual := new Stream(content, UnexpectedEof);
    var expected := new Stream(content, Eof);
    ok := VerifyDirect(actual, size, expected, size);
  }

  // ----- copyDeterministic

  /** The source cut every 32 KiB. */
  function Chunks(s: seq<byte>): seq<seq<byte>> {
    if s == [] then []
    else if |s| <= DETERMINISTIC_BUFFER then [s]
    else [s[..DETERMINISTIC_BUFFER]] + Chunks(s[DETERMINISTIC_BUFFER..])
  }

  /** Only the last chunk may be shorter, none is empty, and together they are the source. */
  lemma {:induction false} ChunksShape(s: seq<byte>)
    ensures Flatten(Chunks(s)) == s
    ensures forall i :: 0 <= i < |Chunks(s)| ==> 0 < |Chunks(s)[i]| <= 32768
    ensures forall i :: 0 <= i < |Chunks(s)| - 1 ==> |Chunks(s)[i]| == 32768
  {
    if |s| > DETERMINISTIC_BUFFER {
      ChunksShape(s[DETERMINISTIC_BUFFER..]);
      Halves(s, DETERMINISTIC_BUFFER);
      assert Chunks(s)[1..] == Chunks(s[DETERMINISTIC_BUFFER..]);
    } else if s != [] {
      assert Flatten([s]) == s + Flatten<byte>([]);
    }
  }

  /** An io.Writer: a reliable one always takes the whole slice. */
  class Sink {
    var chunks: seq<seq<byte>>
    const reliable: bool

    constructor (reliable: bool)
      ensures chunks == [] && this.reliable == reliable
    {
      chunks := [];
      this.reliable := reliable;
    }

    method Write(data: seq<byte>) returns (written: nat, failed: bool)
      modifies this
      ensures written <= |data| && chunks == old(chunks) + [data[..written]]
      ensures reliable ==> written == |data| && !failed
    {
      written := |data|;
      failed := false;
      if !reliable {
        written :| 0 <= written <= |data|;
        failed := *;
      }
      chunks := chunks + [data[..written]];
    }
  }

  datatype CopyOutcome = Copied | WriteFailed | ShortWrite | ReadFailed

  /** Whatever the fragmentation, the sink receives the chunks of the source in order. */
  method CopyDeterministic(destination: Sink, source: Reader) returns (total: nat, outcome: CopyOutcome, ghost sent: seq<seq<byte>>)
    modifies destination, source, source.source
    ensures destination.chunks == old(destination.chunks) + sent
    ensures outcome == Copied || outcome == ReadFailed ==> sent == Chunks(old(source.Visible()))
    ensures Flatten(sent) <= old(source.Visible()) && total == |Flatten(sent)|
    ensures destination.reliable ==> outcome == Copied || outcome == ReadFailed
    ensures old(source.EndsCleanly()) ==> outcome != ReadFailed
    ensures outcome == Copied ==> Done(source.source.end) || old(source.left).Some?
  {
    var buffer := new byte[DETERMINISTIC_BUFFER];
    total, outcome, sent := 0, Copied, [];
    ghost var content, before := source.Visible(), destination.chunks;
    while true
      invariant CopiedSoFar(content, sent, total)
      invariant source.Visible() == content[total..]
      invariant destination.chunks == before + sent
      invariant old(source.left).None? ==> source.left.None?
      invariant old(source.EndsCleanly()) ==> source.EndsCleanly()
      decreases |content| - total
    {
      var read, readErr := ReadFull(source, buffer);
      if read != 0 {
        var written, failed := destination.Write(buffer[..read]);
        CopyStep(content, sent, total, read, written);
        assert buffer[..read][..written] == content[total..][..written];
        Regroup(before, sent, [content[total..][..written]]);
        sent := sent + [content[total..][..written]];
        total := total + written;
        if failed {
          return total, WriteFailed, sent;
        }
        if written != read {
          return total, ShortWrite, sent;
        }
      }
      if readErr == NoError {
        continue;
      }
      return total, if Done(readErr) then Copied else ReadFailed, sent;
    }
  }

  ghost predicate CopiedSoFar(content: seq<byte>, sent: seq<seq<byte>>, total: nat) {
    total <= |content| && Flatten(sent) == content[..total]
    && Chunks(content) == sent + Chunks(content[total..])
  }

  /** One buffer read and `written` of its bytes taken. */
  lemma CopyStep(content: seq<byte>, sent: seq<seq<byte>>, total: nat, read: nat, written: nat)
    requires CopiedSoFar(content, sent, total) && written <= read
    requires 0 < read == (if |content| - total < DETERMINISTIC_BUFFER then |content| - total else DETERMINISTIC_BUFFER)
    ensures var sent' := sent + [content[total..][..written]];
            Flatten(sent') == content[..total + written]
            && (written == read ==> CopiedSoFar(content, sent', total + written))
  {
    var piece, rest := content[total..][..written], content[total..];
    FlattenAppend(sent, [piece]);
    assert Flatten([piece]) == piece + Flatten<byte>([]);
    assert content[..total + written] == content[..total] + piece;
    if written == read {
      assert Chunks(rest) == [rest[..read]] + Chunks(rest[read..]) by {
        if |rest| <= DETERMINISTIC_BUFFER {
          assert rest[..read] == rest && rest[read..] == [];
        }
      }
      assert rest[read..] == content[total + read..];
      Regroup(sent, [piece], Chunks(rest[read..]));
    }
  }
}
