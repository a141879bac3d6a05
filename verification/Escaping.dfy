/** internal/cli/format.go: the escaping of external bytes and text, and the decoder that undoes it. */
module Escaping {
  import opened Bytes
  import opened Utf8

  const BACKSLASH: byte := 92
  const TAB: byte := 9
  const LINE_FEED: byte := 10
  const CARRIAGE_RETURN: byte := 13
  const LETTER_N: byte := 110
  const LETTER_R: byte := 114
  const LETTER_T: byte := 116
  const LETTER_X: byte := 120
  const LETTER_SMALL_U: byte := 117
  const LETTER_BIG_U: byte := 85

  /** Membership in Go's unicode.C. The table belongs to the Go release, so it is a parameter; every
      release puts the C0 and C1 controls in it and the printable ASCII characters outside. */
  type Category = int -> bool

  ghost predicate GoCategoryC(c: Category) {
    (forall r {:trigger c(r)} :: 0 <= r < 0x20 || 0x7F <= r < 0xA0 ==> c(r))
    && (forall r {:trigger c(r)} :: 0x20 <= r < 0x7F ==> !c(r))
  }

  predicate Structural(r: int, c: Category) {
    c(r) || r == 0x2028 || r == 0x2029
  }

  function HexDigit(v: nat): (b: byte)
    requires v < 16
    ensures 48 <= b <= 57 || 65 <= b <= 70
  {
    if v < 10 then 48 + v else 55 + v
  }

  /** The n-digit upper-case hexadecimal form that %0nX writes for a value that fits. */
  function Hex(v: nat, n: nat): (s: text)
    ensures |s| == n
    ensures forall i :: 0 <= i < n ==> 0x30 <= s[i] <= 0x46
  {
    if n == 0 then [] else Hex(v / 16, n - 1) + [HexDigit(v % 16)]
  }

  function DigitValue(b: byte): nat {
    if 48 <= b <= 57 then b - 48 else if 65 <= b <= 70 then b - 55 else 0
  }

  function HexValue(s: text): nat {
    if s == [] then 0 else HexValue(s[..|s| - 1]) * 16 + DigitValue(s[|s| - 1])
  }

  function Power16(n: nat): nat {
    if n == 0 then 1 else 16 * Power16(n - 1)
  }

  lemma {:induction false} HexRoundTrip(v: nat, n: nat)
    requires v < Power16(n)
    ensures HexValue(Hex(v, n)) == v
  {
    if n > 0 {
      HexRoundTrip(v / 16, n - 1);
      assert Hex(v, n)[..n - 1] == Hex(v / 16, n - 1);
    }
  }

  lemma Power16Values()
    ensures Power16(2) == 0x100 && Power16(4) == 0x1_0000 && Power16(8) == 0x1_0000_0000
  {
    assert Power16(3) == 0x1000;
    assert Power16(5) == 0x10_0000;
    assert Power16(6) == 0x100_0000;
    assert Power16(7) == 0x1000_0000;
  }

  /** What writeExternalRune appends for one rune. */
  function EscapeRune(r: int, escapeBackslash: bool, c: Category): text
    requires ValidRune(r)
  {
    if escapeBackslash && r == 92 then [BACKSLASH, BACKSLASH]
    else if r == 0x2028 || r == 0x2029 then [BACKSLASH, LETTER_SMALL_U] + Hex(r, 4)
    else if c(r) then
      if r == 9 then [BACKSLASH, LETTER_T]
      else if r == 13 then [BACKSLASH, LETTER_R]
      else if r == 10 then [BACKSLASH, LETTER_N]
      else if r <= 0xFFFF then [BACKSLASH, LETTER_SMALL_U] + Hex(r, 4)
      else [BACKSLASH, LETTER_BIG_U] + Hex(r, 8)
    else Encode(r)
  }

  function EscapeRunes(rs: seq<int>, c: Category): text
    requires forall r :: r in rs ==> ValidRune(r)
  {
    if rs == [] then [] else EscapeRune(rs[0], true, c) + EscapeRunes(rs[1..], c)
  }

  function EscapeText(value: text, c: Category): text {
    EscapeRunes(Runes(value), c)
  }

  function EscapeBytes(value: text, c: Category): text {
    if value == [] then []
    else if DecodeRune(value) == INVALID then
      [BACKSLASH, LETTER_X] + Hex(value[0], 2) + EscapeBytes(value[1..], c)
    else
      EscapeRune(DecodeRune(value).rune, true, c) + EscapeBytes(value[DecodeRune(value).size..], c)
  }

  // ----- the decoder

  function EncodeIfRune(r: int): text {
    if ValidRune(r) then Encode(r) else []
  }

  /** One escape sequence: the bytes it stands for and its length. */
  function DecodeEscape(s: text): (d: (text, nat))
    requires s != []
    ensures 1 <= d.1 <= |s|
  {
    if s[0] != BACKSLASH || |s| == 1 then ([s[0]], 1)
    else if s[1] == LETTER_T then ([TAB], 2)
    else if s[1] == LETTER_R then ([CARRIAGE_RETURN], 2)
    else if s[1] == LETTER_N then ([LINE_FEED], 2)
    else if s[1] == LETTER_X && 4 <= |s| then ([HexValue(s[2..4]) % 256], 4)
    else if s[1] == LETTER_SMALL_U && 6 <= |s| then (EncodeIfRune(HexValue(s[2..6])), 6)
    else if s[1] == LETTER_BIG_U && 10 <= |s| then (EncodeIfRune(HexValue(s[2..10])), 10)
    else ([s[1]], 2)
  }

  function Unescape(s: text): text {
    if s == [] then [] else DecodeEscape(s).0 + Unescape(s[DecodeEscape(s).1..])
  }

  lemma UnescapeOne(escape: text, rest: text)
    requires escape != [] && DecodeEscape(escape + rest).1 == |escape|
    ensures Unescape(escape + rest) == DecodeEscape(escape + rest).0 + Unescape(rest)
  {
    assert (escape + rest)[|escape|..] == rest;
  }

  lemma {:induction false} UnescapeRaw(raw: text, rest: text)
    requires BACKSLASH !in raw
    ensures Unescape(raw + rest) == raw + Unescape(rest)
  {
    if raw == [] {
      assert raw + rest == rest && raw + Unescape(rest) == Unescape(rest);
    } else {
      ConsAppend(raw, rest);
      UnescapeOne([raw[0]], raw[1..] + rest);
      UnescapeRaw(raw[1..], rest);
      ConsAppend(raw, Unescape(rest));
    }
  }

  lemma DecodeHexEscape(kind: byte, v: nat, n: nat, rest: text)
    requires v < Power16(n)
    requires (kind == LETTER_X && n == 2) || (kind == LETTER_SMALL_U && n == 4) || (kind == LETTER_BIG_U && n == 8)
    ensures DecodeEscape([BACKSLASH, kind] + Hex(v, n) + rest)
         == (if kind == LETTER_X then [v % 256] else EncodeIfRune(v), n + 2)
  {
    var s := [BACKSLASH, kind] + Hex(v, n) + rest;
    assert s[0] == BACKSLASH && s[1] == kind;
    assert s[2..n + 2] == Hex(v, n);
    HexRoundTrip(v, n);
  }

  lemma EncodedBytes(r: int)
    requires ValidRune(r)
    ensures r < 0x80 ==> Encode(r) == [r]
    ensures r >= 0x80 ==> forall i :: 0 <= i < |Encode(r)| ==> Encode(r)[i] >= 0x80
  {
  }

  lemma UnescapeRune(r: int, c: Category, rest: text)
    requires ValidRune(r)
    ensures Unescape(EscapeRune(r, true, c) + rest) == Encode(r) + Unescape(rest)
  {
    var e := EscapeRune(r, true, c);
    Power16Values();
    if e == Encode(r) && r != 92 {
      EncodedBytes(r);
      UnescapeRaw(e, rest);
    } else {
      if |e| == 6 {
        DecodeHexEscape(LETTER_SMALL_U, r, 4, rest);
      } else if |e| == 10 {
        DecodeHexEscape(LETTER_BIG_U, r, 8, rest);
      } else {
        assert (e + rest)[0] == e[0] && (e + rest)[1] == e[1];
      }
      UnescapeOne(e, rest);
    }
  }

  lemma UnescapeByte(b: byte, rest: text)
    ensures Unescape([BACKSLASH, LETTER_X] + Hex(b, 2) + rest) == [b] + Unescape(rest)
  {
    var escape := [BACKSLASH, LETTER_X] + Hex(b, 2);
    assert DecodeEscape(escape + rest) == ([b], 4) by {
      Power16Values();
      DecodeHexEscape(LETTER_X, b, 2, rest);
    }
    UnescapeOne(escape, rest);
  }

  /** Every byte string is recovered from its escaped form. */
  lemma {:induction false} UnescapeEscapeBytes(value: text, c: Category)
    ensures Unescape(EscapeBytes(value, c)) == value
  {
    if value != [] {
      var d := DecodeRune(value);
      UnescapeEscapeBytes(value[d.size..], c);
      Halves(value, d.size);
      if d == INVALID {
        UnescapeByte(value[0], EscapeBytes(value[1..], c));
        assert value[..1] == [value[0]];
      } else {
        UnescapeRune(d.rune, c, EscapeBytes(value[d.size..], c));
        EncodeDecode(value);
      }
    }
  }

  lemma {:induction false} UnescapeEscapeRunes(rs: seq<int>, c: Category)
    requires forall r :: r in rs ==> ValidRune(r)
    ensures Unescape(EscapeRunes(rs, c)) == EncodeAll(rs)
  {
    if rs != [] {
      UnescapeRune(rs[0], c, EscapeRunes(rs[1..], c));
      UnescapeEscapeRunes(rs[1..], c);
    }
  }

  /** Text comes back exactly when it was well-formed UTF-8: each undecodable byte has become U+FFFD. */
  lemma UnescapeEscapeText(value: text, c: Category)
    ensures Unescape(EscapeText(value, c)) == value <==> ValidString(value)
  {
    UnescapeEscapeRunes(Runes(value), c);
    ReencodeExactlyWhenValid(value);
  }

  // ----- what the output can contain

  ghost predicate Clean(s: text, c: Category) {
    ValidString(s) && forall r :: r in Runes(s) ==> !Structural(r, c)
  }

  lemma {:induction false} CleanAscii(s: text, c: Category, rest: text)
    requires GoCategoryC(c) && Clean(rest, c)
    requires forall i :: 0 <= i < |s| ==> 0x20 <= s[i] < 0x7F
    ensures Clean(s + rest, c)
  {
    if s == [] {
      assert s + rest == rest;
    } else {
      ConsAppend(s, rest);
      CleanAscii(s[1..], c, rest);
      RunesStep(s[0], s[1..] + rest);
    }
  }

  lemma CleanRune(r: int, c: Category, rest: text)
    requires ValidRune(r) && GoCategoryC(c) && Clean(rest, c)
    ensures Clean(EscapeRune(r, true, c) + rest, c)
  {
    if Structural(r, c) || r == 92 {
      CleanAscii(EscapeRune(r, true, c), c, rest);
    } else {
      RunesStep(r, rest);
    }
  }

  lemma {:induction false} EscapedRunesClean(rs: seq<int>, c: Category)
    requires GoCategoryC(c) && forall r :: r in rs ==> ValidRune(r)
    ensures Clean(EscapeRunes(rs, c), c)
  {
    if rs != [] {
      EscapedRunesClean(rs[1..], c);
      CleanRune(rs[0], c, EscapeRunes(rs[1..], c));
    }
  }

  /** Whatever bytes arrive, the output is well-formed UTF-8 without a structural rune. */
  lemma {:induction false} EscapedBytesClean(value: text, c: Category)
    requires GoCategoryC(c)
    ensures Clean(EscapeBytes(value, c), c)
  {
    if value != [] {
      var d := DecodeRune(value);
      if d == INVALID {
        EscapedBytesClean(value[1..], c);
        CleanAscii([BACKSLASH, LETTER_X] + Hex(value[0], 2), c, EscapeBytes(value[1..], c));
      } else {
        EscapedBytesClean(value[d.size..], c);
        CleanRune(d.rune, c, EscapeBytes(value[d.size..], c));
      }
    }
  }

  lemma {:induction false} CleanHasNoControlByte(s: text, c: Category, i: nat)
    requires GoCategoryC(c) && Clean(s, c) && i < |s|
    ensures s[i] >= 0x20
  {
    var d := DecodeRune(s);
    EncodeDecode(s);
    EncodedBytes(d.rune);
    assert d.rune in Runes(s);
    if i < d.size {
      assert s[i] == s[..d.size][i];
    } else {
      assert forall r :: r in Runes(s[d.size..]) ==> r in Runes(s);
      CleanHasNoControlByte(s[d.size..], c, i - d.size);
    }
  }

  // ----- tab-separated rows

  /** Cells after the first, each behind a tab. */
  function RowTail(cells: seq<text>, c: Category): text {
    if cells == [] then [LINE_FEED] else [TAB] + EscapeText(cells[0], c) + RowTail(cells[1..], c)
  }

  function Row(cells: seq<text>, c: Category): text
    requires cells != []
  {
    EscapeText(cells[0], c) + RowTail(cells[1..], c)
  }

  function Table(rows: seq<seq<text>>, c: Category): text
    requires forall i :: 0 <= i < |rows| ==> rows[i] != []
  {
    if rows == [] then [] else Row(rows[0], c) + Table(rows[1..], c)
  }

  /** Position of the first tab or line feed, or |s|. */
  function CellEnd(s: text): (i: nat)
    ensures i <= |s|
  {
    if s == [] || s[0] == TAB || s[0] == LINE_FEED then 0 else 1 + CellEnd(s[1..])
  }

  /** Reads cells up to the end of the line: the row and the text after it. */
  function ReadRow(s: text): (r: (seq<text>, text))
    ensures s != [] ==> |r.1| < |s|
    ensures s == [] ==> r.1 == []
    decreases |s|
  {
    var n := CellEnd(s);
    var cell := Unescape(s[..n]);
    if n == |s| then ([cell], [])
    else if s[n] == LINE_FEED then ([cell], s[n + 1..])
    else var more := ReadRow(s[n + 1..]); ([cell] + more.0, more.1)
  }

  function ReadTable(s: text): seq<seq<text>>
    decreases |s|
  {
    if s == [] then [] else var r := ReadRow(s); [r.0] + ReadTable(r.1)
  }

  lemma {:induction false} CellEndAfter(cell: text, rest: text)
    requires forall i :: 0 <= i < |cell| ==> cell[i] >= 0x20
    requires rest != [] && (rest[0] == TAB || rest[0] == LINE_FEED)
    ensures CellEnd(cell + rest) == |cell|
  {
    if cell == [] {
      assert cell + rest == rest;
    } else {
      ConsAppend(cell, rest);
      CellEndAfter(cell[1..], rest);
    }
  }

  lemma CutAfter(cell: text, rest: text)
    requires rest != []
    ensures (cell + rest)[..|cell|] == cell && (cell + rest)[|cell|] == rest[0] && (cell + rest)[|cell| + 1..] == rest[1..]
  {
  }

  lemma ReadCell(cell: text, rest: text, c: Category)
    requires GoCategoryC(c) && ValidString(cell)
    requires rest != [] && (rest[0] == TAB || rest[0] == LINE_FEED)
    ensures ReadRow(EscapeText(cell, c) + rest)
         == if rest[0] == LINE_FEED then ([cell], rest[1..])
            else ([cell] + ReadRow(rest[1..]).0, ReadRow(rest[1..]).1)
  {
    var e := EscapeText(cell, c);
    EscapedRunesClean(Runes(cell), c);
    forall i | 0 <= i < |e| ensures e[i] >= 0x20 {
      CleanHasNoControlByte(e, c, i);
    }
    CellEndAfter(e, rest);
    UnescapeEscapeText(cell, c);
    CutAfter(e, rest);
  }

  lemma RowTailBytes(cells: seq<text>, c: Category, rest: text)
    ensures RowTail(cells, c) + rest
         == if cells == [] then [LINE_FEED] + rest else [TAB] + (Row(cells, c) + rest)
  {
  }

  lemma {:induction false} ReadRowBack(cells: seq<text>, c: Category, rest: text)
    requires GoCategoryC(c) && cells != []
    requires forall i :: 0 <= i < |cells| ==> ValidString(cells[i])
    ensures ReadRow(Row(cells, c) + rest) == (cells, rest)
    decreases |cells|
  {
    var tail := RowTail(cells[1..], c) + rest;
    Regroup(EscapeText(cells[0], c), RowTail(cells[1..], c), rest);
    RowTailBytes(cells[1..], c, rest);
    ReadCell(cells[0], tail, c);
    if |cells| > 1 {
      assert tail[1..] == Row(cells[1..], c) + rest;
      ReadRowBack(cells[1..], c, rest);
      assert [cells[0]] + cells[1..] == cells;
    } else {
      assert tail[1..] == rest;
      assert [cells[0]] == cells;
    }
  }

  /** Escaped rows split back into their exact cells. */
  lemma {:induction false} ReadTableBack(rows: seq<seq<text>>, c: Category)
    requires GoCategoryC(c)
    requires forall i :: 0 <= i < |rows| ==> rows[i] != []
    requires forall i, j :: 0 <= i < |rows| && 0 <= j < |rows[i]| ==> ValidString(rows[i][j])
    ensures ReadTable(Table(rows, c)) == rows
  {
    if rows != [] {
      ReadRowBack(rows[0], c, Table(rows[1..], c));
      ReadTableBack(rows[1..], c);
      RowNotEmpty(rows[0], c);
    }
  }

  lemma RowNotEmpty(cells: seq<text>, c: Category)
    requires cells != []
    ensures Row(cells, c) != []
  {
    assert RowTail(cells[1..], c) != [];
  }

  // ----- escaping touches nothing it need not

  const HEX_DIGITS: text := [48, 49, 50, 51, 52, 53, 54, 55, 56, 57, 65, 66, 67, 68, 69, 70]

  /** Well-formed, and neither a backslash nor a structural rune in it. */
  ghost predicate Plain(s: text, c: Category) {
    ValidString(s) && forall r :: r in Runes(s) ==> r != 92 && r != 0x2028 && r != 0x2029 && !c(r)
  }

  lemma EscapeTextStep(value: text, c: Category)
    requires value != []
    ensures EscapeText(value, c)
         == EscapeRune(DecodeRune(value).rune, true, c) + EscapeText(value[DecodeRune(value).size..], c)
  {
    assert Runes(value)[1..] == Runes(value[DecodeRune(value).size..]);
  }

  lemma PlainStep(s: text, c: Category)
    requires s != []
    ensures Plain(s, c) <==>
              var d := DecodeRune(s);
              d != INVALID && d.rune != 92 && !Structural(d.rune, c) && Plain(s[d.size..], c)
  {
    var d := DecodeRune(s);
    assert Runes(s)[0] == d.rune && Runes(s)[1..] == Runes(s[d.size..]);
    assert d.rune in Runes(s) && forall r :: r in Runes(s[d.size..]) ==> r in Runes(s);
  }

  lemma HexStep(v: nat, high: nat, n: nat, last: nat, digits: text)
    requires last < 16 && v == high * 16 + last && Hex(high, n) == digits
    ensures Hex(v, n + 1) == digits + [HexDigit(last)]
  {
    assert v / 16 == high && v % 16 == last;
  }

  lemma HexTwo(v: nat, i: nat, j: nat)
    requires i < 16 && j < 16 && v == 16 * i + j
    ensures Hex(v, 2) == [HexDigit(i), HexDigit(j)]
  {
    HexStep(i, 0, 0, i, []);
    HexStep(v, i, 1, j, [HexDigit(i)]);
  }

  lemma HexFour(v: nat, i: nat, j: nat, k: nat, l: nat)
    requires i < 16 && j < 16 && k < 16 && l < 16 && v == 4096 * i + 256 * j + 16 * k + l
    ensures Hex(v, 4) == [HexDigit(i), HexDigit(j), HexDigit(k), HexDigit(l)]
  {
    var v2 := 16 * i + j;
    var v3 := 16 * v2 + k;
    HexTwo(v2, i, j);
    HexStep(v3, v2, 2, k, [HexDigit(i), HexDigit(j)]);
    HexStep(v, v3, 3, l, [HexDigit(i), HexDigit(j), HexDigit(k)]);
  }

  lemma HexEight(v: nat, g: nat, h: nat, i: nat, j: nat, k: nat, l: nat)
    requires g < 16 && h < 16 && i < 16 && j < 16 && k < 16 && l < 16
    requires v == 1048576 * g + 65536 * h + 4096 * i + 256 * j + 16 * k + l
    ensures Hex(v, 8) == [48, 48, HexDigit(g), HexDigit(h), HexDigit(i), HexDigit(j), HexDigit(k), HexDigit(l)]
  {
    var v4 := 16 * g + h;
    var v5 := 16 * v4 + i;
    var v6 := 16 * v5 + j;
    var v7 := 16 * v6 + k;
    HexFour(v4, 0, 0, g, h);
    HexStep(v5, v4, 4, i, [48, 48, HexDigit(g), HexDigit(h)]);
    HexStep(v6, v5, 5, j, [48, 48, HexDigit(g), HexDigit(h), HexDigit(i)]);
    HexStep(v7, v6, 6, k, [48, 48, HexDigit(g), HexDigit(h), HexDigit(i), HexDigit(j)]);
    HexStep(v, v7, 7, l, [48, 48, HexDigit(g), HexDigit(h), HexDigit(i), HexDigit(j), HexDigit(k)]);
  }

  /** The digits of %X are 0 to 9 and A to F. */
  lemma HexDigits(v: nat)
    requires v < 16
    ensures HexDigit(v) == HEX_DIGITS[v]
  {
  }

  lemma EscapeRuneFirst(r: int, c: Category, rest: text)
    requires ValidRune(r)
    ensures EscapeText(Encode(r) + rest, c) == EscapeRune(r, true, c) + EscapeText(rest, c)
    ensures r == RUNE_ERROR || |Encode(r)| > 1 || r < 0x80
    ensures EscapeBytes(Encode(r) + rest, c) == EscapeRune(r, true, c) + EscapeBytes(rest, c)
  {
    DecodeEncode(r, rest);
    assert (Encode(r) + rest)[|Encode(r)|..] == rest;
    EscapeTextStep(Encode(r) + rest, c);
    assert Decoded(r, |Encode(r)|) != INVALID;
  }

  /** An ordinary rune is copied; whatever follows is escaped as if it stood alone. */
  lemma OrdinaryRuneCopied(r: int, c: Category, rest: text)
    requires ValidRune(r) && r != 92 && r != 0x2028 && r != 0x2029 && !c(r)
    ensures EscapeText(Encode(r) + rest, c) == Encode(r) + EscapeText(rest, c)
    ensures EscapeBytes(Encode(r) + rest, c) == Encode(r) + EscapeBytes(rest, c)
  {
    EscapeRuneFirst(r, c, rest);
  }

  lemma RuneSpelled(r: int, g: nat, h: nat, i: nat, j: nat, k: nat, l: nat, c: Category)
    requires ValidRune(r) && Structural(r, c)
    requires g < 16 && h < 16 && i < 16 && j < 16 && k < 16 && l < 16
    requires r == 1048576 * g + 65536 * h + 4096 * i + 256 * j + 16 * k + l
    ensures r == 9 ==> EscapeRune(r, true, c) == [92, 116]
    ensures r == 13 ==> EscapeRune(r, true, c) == [92, 114]
    ensures r == 10 ==> EscapeRune(r, true, c) == [92, 110]
    ensures r <= 0xFFFF && r !in {9, 10, 13, 92} ==>
              EscapeRune(r, true, c) == [92, 117] + [HexDigit(i), HexDigit(j), HexDigit(k), HexDigit(l)]
    ensures r > 0xFFFF ==>
              EscapeRune(r, true, c) ==
              [92, 85] + [48, 48, HexDigit(g), HexDigit(h), HexDigit(i), HexDigit(j), HexDigit(k), HexDigit(l)]
  {
    if r <= 0xFFFF {
      HexFour(r, i, j, k, l);
    } else {
      HexEight(r, g, h, i, j, k, l);
    }
  }

  /** The spelling of every other rune: a doubled backslash, a named escape, or its digits in upper case. */
  lemma OtherRunesSpelled(r: int, g: nat, h: nat, i: nat, j: nat, k: nat, l: nat, c: Category, rest: text)
    returns (spelling: text)
    requires ValidRune(r) && (r == 92 || r == 0x2028 || r == 0x2029 || c(r))
    requires g < 16 && h < 16 && i < 16 && j < 16 && k < 16 && l < 16
    requires r == 1048576 * g + 65536 * h + 4096 * i + 256 * j + 16 * k + l
    ensures spelling ==
      if r == 92 then [92, 92]
      else if r == 9 then [92, 116]
      else if r == 13 then [92, 114]
      else if r == 10 then [92, 110]
      else if r <= 0xFFFF then [92, 117] + [HexDigit(i), HexDigit(j), HexDigit(k), HexDigit(l)]
      else [92, 85] + [48, 48, HexDigit(g), HexDigit(h), HexDigit(i), HexDigit(j), HexDigit(k), HexDigit(l)]
    ensures EscapeText(Encode(r) + rest, c) == spelling + EscapeText(rest, c)
    ensures EscapeBytes(Encode(r) + rest, c) == spelling + EscapeBytes(rest, c)
  {
    spelling := EscapeRune(r, true, c);
    EscapeRuneFirst(r, c, rest);
    if r != 92 {
      RuneSpelled(r, g, h, i, j, k, l, c);
    }
  }

  /** A byte that starts no rune is spelled by its two digits in bytes, and is U+FFFD in text. */
  lemma StrayBytesSpelled(b: byte, i: nat, j: nat, c: Category, rest: text)
    requires i < 16 && j < 16 && b == 16 * i + j && DecodeRune([b] + rest) == INVALID
    ensures EscapeBytes([b] + rest, c) == [92, 120, HexDigit(i), HexDigit(j)] + EscapeBytes(rest, c)
    ensures EscapeText([b] + rest, c) == EscapeText(Encode(0xFFFD) + rest, c)
  {
    HexTwo(b, i, j);
    assert ([b] + rest)[1..] == rest;
    EscapeTextStep([b] + rest, c);
    EscapeRuneFirst(0xFFFD, c, rest);
  }

  /** A plain text in front of anything is copied, and the rest is escaped as if it stood alone. */
  lemma {:induction false} PlainCopied(plain: text, c: Category, rest: text)
    requires Plain(plain, c)
    ensures EscapeText(plain + rest, c) == plain + EscapeText(rest, c)
    ensures EscapeBytes(plain + rest, c) == plain + EscapeBytes(rest, c)
    decreases |plain|
  {
    if plain == [] {
      assert plain + rest == rest && plain + EscapeText(rest, c) == EscapeText(rest, c);
      assert plain + EscapeBytes(rest, c) == EscapeBytes(rest, c);
    } else {
      var d := DecodeRune(plain);
      var tail := plain[d.size..];
      PlainStep(plain, c);
      EncodeDecode(plain);
      Halves(plain, d.size);
      Regroup(Encode(d.rune), tail, rest);
      OrdinaryRuneCopied(d.rune, c, tail + rest);
      PlainCopied(tail, c, rest);
      Regroup(Encode(d.rune), tail, EscapeText(rest, c));
      Regroup(Encode(d.rune), tail, EscapeBytes(rest, c));
    }
  }

  lemma PlainPrefixesCopied(value: text, c: Category)
    ensures forall n: nat {:trigger value[..n]} | n <= |value| && Plain(value[..n], c) ::
              && EscapeText(value, c) == value[..n] + EscapeText(value[n..], c)
              && EscapeBytes(value, c) == value[..n] + EscapeBytes(value[n..], c)
  {
    forall n: nat {:trigger value[..n]} | n <= |value| && Plain(value[..n], c)
      ensures EscapeText(value, c) == value[..n] + EscapeText(value[n..], c)
           && EscapeBytes(value, c) == value[..n] + EscapeBytes(value[n..], c)
    {
      Halves(value, n);
      PlainCopied(value[..n], c, value[n..]);
    }
  }

  /** Escaping never shortens, and lengthens everything that is not plain. */
  lemma {:induction false} OnlyPlainKeepsItsLength(value: text, c: Category)
    ensures |EscapeText(value, c)| >= |value| && |EscapeBytes(value, c)| >= |value|
    ensures !Plain(value, c) ==> |EscapeText(value, c)| > |value| && |EscapeBytes(value, c)| > |value|
    decreases |value|
  {
    if value != [] {
      var d := DecodeRune(value);
      OnlyPlainKeepsItsLength(value[d.size..], c);
      PlainStep(value, c);
      EscapeTextStep(value, c);
      EscapedLength(d.rune, c);
      if d != INVALID {
        EncodeDecode(value);
      }
    }
  }

  lemma EscapedLength(r: int, c: Category)
    requires ValidRune(r)
    ensures |EscapeRune(r, true, c)| >= |Encode(r)|
    ensures r == 92 || Structural(r, c) ==> |EscapeRune(r, true, c)| > |Encode(r)|
  {
  }

  lemma EscapedRuneDiffers(r: int, escapeBackslash: bool, c: Category, before: text)
    requires ValidRune(r)
    ensures before + EscapeRune(r, escapeBackslash, c) == before + Encode(r)
       <==> r != 0x2028 && r != 0x2029 && !c(r) && !(escapeBackslash && r == 92)
  {
    SplitEqual(before, EscapeRune(r, escapeBackslash, c), before, Encode(r));
  }

  /** Escaping leaves a value as it is if and only if it is well-formed, without backslash or structural rune. */
  lemma UnchangedExactlyWhenPlain(value: text, c: Category)
    ensures EscapeText(value, c) == value <==> Plain(value, c)
    ensures EscapeBytes(value, c) == value <==> Plain(value, c)
  {
    if Plain(value, c) {
      PlainCopied(value, c, []);
      assert value + [] == value;
    } else {
      OnlyPlainKeepsItsLength(value, c);
    }
  }

  // ----- the loops

  class StringBuilder {
    var contents: text

    constructor ()
      ensures contents == []
    {
      contents := [];
    }

    method WriteString(s: text)
      modifies this
      ensures contents == old(contents) + s
    {
      contents := contents + s;
    }
  }

  method WriteExternalRune(output: StringBuilder, r: int, escapeBackslash: bool, c: Category)
    requires ValidRune(r)
    modifies output
    ensures output.contents == old(output.contents) + Encode(r)
       <==> r != 0x2028 && r != 0x2029 && !c(r) && !(escapeBackslash && r == 92)
    ensures output.contents == old(output.contents) + EscapeRune(r, escapeBackslash, c)
  {
    EscapedRuneDiffers(r, escapeBackslash, c, output.contents);
    if escapeBackslash && r == 92 {
      output.WriteString([BACKSLASH, BACKSLASH]);
      return;
    }
    if r == 0x2028 || r == 0x2029 {
      output.WriteString([BACKSLASH, LETTER_SMALL_U] + Hex(r, 4));
      return;
    }
    if c(r) {
      if r == 9 {
        output.WriteString([BACKSLASH, LETTER_T]);
      } else if r == 13 {
        output.WriteString([BACKSLASH, LETTER_R]);
      } else if r == 10 {
        output.WriteString([BACKSLASH, LETTER_N]);
      } else if r <= 0xFFFF {
        output.WriteString([BACKSLASH, LETTER_SMALL_U] + Hex(r, 4));
      } else {
        output.WriteString([BACKSLASH, LETTER_BIG_U] + Hex(r, 8));
      }
      return;
    }
    output.WriteString(Encode(r));
  }

  method SafeExternalBytes(input: text, c: Category) returns (escaped: text)
    ensures escaped == EscapeBytes(input, c)
    ensures escaped == input <==> Plain(input, c)
    ensures forall n: nat {:trigger input[..n]} | n <= |input| && Plain(input[..n], c) ::
              escaped == input[..n] + EscapeBytes(input[n..], c)
  {
    var output := new StringBuilder();
    var value := input;
    while value != []
      invariant output.contents + EscapeBytes(value, c) == EscapeBytes(input, c)
      decreases |value|
    {
      var d := DecodeRune(value);
      ghost var before, rest := output.contents, EscapeBytes(value[d.size..], c);
      if d.rune == RUNE_ERROR && d.size == 1 {
        output.WriteString([BACKSLASH, LETTER_X] + Hex(value[0], 2));
        Regroup(before, [BACKSLASH, LETTER_X] + Hex(value[0], 2), rest);
        value := value[1..];
        continue;
      }
      WriteExternalRune(output, d.rune, true, c);
      Regroup(before, EscapeRune(d.rune, true, c), rest);
      value := value[d.size..];
    }
    escaped := output.contents;
    UnchangedExactlyWhenPlain(input, c);
    PlainPrefixesCopied(input, c);
  }

  /** safeExternalText; escapeTSVCell has the same body. The `for range` loop decodes as it goes. */
  method SafeExternalText(input: text, c: Category) returns (escaped: text)
    ensures escaped == EscapeText(input, c)
    ensures escaped == input <==> Plain(input, c)
    ensures forall n: nat {:trigger input[..n]} | n <= |input| && Plain(input[..n], c) ::
              escaped == input[..n] + EscapeText(input[n..], c)
  {
    var output := new StringBuilder();
    var value := input;
    while value != []
      invariant output.contents + EscapeText(value, c) == EscapeText(input, c)
      decreases |value|
    {
      var d := DecodeRune(value);
      ghost var before := output.contents;
      WriteExternalRune(output, d.rune, true, c);
      EscapeTextStep(value, c);
      Regroup(before, EscapeRune(d.rune, true, c), EscapeText(value[d.size..], c));
      value := value[d.size..];
    }
    escaped := output.contents;
    UnchangedExactlyWhenPlain(input, c);
    PlainPrefixesCopied(input, c);
  }
}
