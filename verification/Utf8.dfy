/** UTF-8 as Go's unicode/utf8 reads and writes it, after section 3 of RFC 3629. */
module Utf8 {
  import opened Bytes

  const RUNE_ERROR := 0xFFFD

  predicate ValidRune(r: int) {
    0 <= r < 0xD800 || 0xE000 <= r <= 0x10FFFF
  }

  function Encode(r: int): (e: text)
    requires ValidRune(r)
    ensures 1 <= |e| <= 4
  {
    if r < 0x80 then [r]
    else if r < 0x800 then [0xC0 + r / 64, 0x80 + r % 64]
    else if r < 0x10000 then [0xE0 + r / 64 / 64, 0x80 + r / 64 % 64, 0x80 + r % 64]
    else [0xF0 + r / 64 / 64 / 64, 0x80 + r / 64 / 64 % 64, 0x80 + r / 64 % 64, 0x80 + r % 64]
  }

  /** The bit patterns of section 3 of RFC 3629: the shortest form, six bits in each byte after the first. */
  lemma EncodedBits(r: int)
    requires ValidRune(r)
    ensures
      var e := Encode(r);
      && (forall i :: 1 <= i < |e| ==> 0x80 <= e[i] < 0xC0)
      && (r < 0x80 <==> |e| == 1) && (0x80 <= r < 0x800 <==> |e| == 2) && (0x800 <= r < 0x1_0000 <==> |e| == 3)
      && (|e| == 1 ==> r == e[0])
      && (|e| == 2 ==> r == 64 * (e[0] as int - 0xC0) + (e[1] as int - 0x80))
      && (|e| == 3 ==> r == 4096 * (e[0] as int - 0xE0) + 64 * (e[1] as int - 0x80) + (e[2] as int - 0x80))
      && (|e| == 4 ==>
            r == 262144 * (e[0] as int - 0xF0) + 4096 * (e[1] as int - 0x80) + 64 * (e[2] as int - 0x80) + (e[3] as int - 0x80))
  {
  }

  datatype Decoded = Decoded(rune: int, size: nat)

  const INVALID := Decoded(RUNE_ERROR, 1)

  predicate Continuation(b: byte) {
    0x80 <= b <= 0xBF
  }

  /** The bytes allowed after a lead byte: the ranges that exclude overlong forms and surrogates. */
  predicate SecondByte(lead: byte, b: byte) {
    Continuation(b)
    && (lead == 0xE0 ==> 0xA0 <= b)
    && (lead == 0xED ==> b <= 0x9F)
    && (lead == 0xF0 ==> 0x90 <= b)
    && (lead == 0xF4 ==> b <= 0x8F)
  }

  /** Appends the six payload bits of a continuation byte. */
  function AppendBits(high: nat, b: byte): (r: nat)
    requires Continuation(b)
    ensures r / 64 == high && r % 64 == b - 0x80
  {
    high * 64 + (b - 0x80)
  }

  /** utf8.DecodeRune on a non-empty slice. */
  function DecodeRune(s: text): (d: Decoded)
    requires s != []
    ensures 1 <= d.size <= |s|
    ensures ValidRune(d.rune)
  {
    if s[0] < 0x80 then Decoded(s[0], 1)
    else if 0xC2 <= s[0] <= 0xDF then
      if 2 <= |s| && SecondByte(s[0], s[1])
      then Decoded(AppendBits(s[0] - 0xC0, s[1]), 2)
      else INVALID
    else if 0xE0 <= s[0] <= 0xEF then
      if 3 <= |s| && SecondByte(s[0], s[1]) && Continuation(s[2])
      then Decoded(AppendBits(AppendBits(s[0] - 0xE0, s[1]), s[2]), 3)
      else INVALID
    else if 0xF0 <= s[0] <= 0xF4 then
      if 4 <= |s| && SecondByte(s[0], s[1]) && Continuation(s[2]) && Continuation(s[3])
      then Decoded(AppendBits(AppendBits(AppendBits(s[0] - 0xF0, s[1]), s[2]), s[3]), 4)
      else INVALID
    else INVALID
  }

  /** Decoding after encoding gives the rune back and consumes exactly its bytes. */
  lemma DecodeEncode(r: int, rest: text)
    requires ValidRune(r)
    ensures DecodeRune(Encode(r) + rest) == Decoded(r, |Encode(r)|)
  {
    var e := Encode(r);
    var s := e + rest;
    assert s[0] == e[0];
    if 0x80 <= r < 0x800 {
      assert s[1] == e[1];
    } else if 0x800 <= r < 0x10000 {
      assert s[1] == e[1] && s[2] == e[2];
    } else if 0x10000 <= r {
      assert s[1] == e[1] && s[2] == e[2] && s[3] == e[3];
    }
  }

  /** What DecodeRune accepts is exactly the encoding of the rune it returns. */
  lemma EncodeDecode(s: text)
    requires s != [] && DecodeRune(s) != INVALID
    ensures Encode(DecodeRune(s).rune) == s[..DecodeRune(s).size]
  {
    var d := DecodeRune(s);
    if d.size == 2 {
      assert s[..2] == [s[0], s[1]];
    } else if d.size == 3 {
      assert s[..3] == [s[0], s[1], s[2]];
    } else if d.size == 4 {
      assert s[..4] == [s[0], s[1], s[2], s[3]];
    }
  }

  /** The runes a `for range` loop over a string visits: U+FFFD for each undecodable byte. */
  function Runes(s: text): (rs: seq<int>)
    ensures forall r :: r in rs ==> ValidRune(r)
  {
    if s == [] then [] else var d := DecodeRune(s); [d.rune] + Runes(s[d.size..])
  }

  function EncodeAll(rs: seq<int>): text
    requires forall r :: r in rs ==> ValidRune(r)
  {
    if rs == [] then [] else Encode(rs[0]) + EncodeAll(rs[1..])
  }

  /** utf8.ValidString. */
  predicate ValidString(s: text) {
    s == [] || (DecodeRune(s) != INVALID && ValidString(s[DecodeRune(s).size..]))
  }

  lemma RunesStep(r: int, rest: text)
    requires ValidRune(r)
    ensures Runes(Encode(r) + rest) == [r] + Runes(rest)
    ensures ValidString(Encode(r) + rest) == ValidString(rest)
  {
    DecodeEncode(r, rest);
    assert (Encode(r) + rest)[|Encode(r)|..] == rest;
  }

  lemma {:induction false} RunesOfEncodeAll(rs: seq<int>, rest: text)
    requires forall r :: r in rs ==> ValidRune(r)
    ensures Runes(EncodeAll(rs) + rest) == rs + Runes(rest)
    ensures ValidString(EncodeAll(rs) + rest) == ValidString(rest)
  {
    if rs == [] {
      assert EncodeAll(rs) + rest == rest;
      assert rs + Runes(rest) == Runes(rest);
    } else {
      var tail := EncodeAll(rs[1..]) + rest;
      EncodeAllSplit(rs, rest);
      RunesStep(rs[0], tail);
      RunesOfEncodeAll(rs[1..], rest);
      ConsAppend(rs, Runes(rest));
    }
  }

  lemma EncodeAllSplit(rs: seq<int>, rest: text)
    requires rs != [] && forall r :: r in rs ==> ValidRune(r)
    ensures EncodeAll(rs) + rest == Encode(rs[0]) + (EncodeAll(rs[1..]) + rest)
  {
  }

  /** Re-encoding the visited runes restores the string exactly when it was well formed. */
  lemma {:induction false} ReencodeExactlyWhenValid(s: text)
    ensures EncodeAll(Runes(s)) == s <==> ValidString(s)
  {
    if s == [] {
      return;
    }
    var d := DecodeRune(s);
    var tail := s[d.size..];
    assert EncodeAll(Runes(s)) == Encode(d.rune) + EncodeAll(Runes(tail)) by {
      assert Runes(s)[1..] == Runes(tail);
    }
    if d == INVALID {
      RunesOfEncodeAll(Runes(s), []);
      assert EncodeAll(Runes(s)) + [] == EncodeAll(Runes(s));
    } else {
      EncodeDecode(s);
      ReencodeExactlyWhenValid(tail);
      SplitEqual(Encode(d.rune), EncodeAll(Runes(tail)), s[..d.size], tail);
      assert s == s[..d.size] + tail;
    }
  }
}
