/**
 * Where everything stands in the texts of lib/printlog.c: the header, the offset label of
 * a row, the two digits of a byte, and the character column.
 */
module DumpLayout {
  import opened Common
  import opened CString
  import opened HexDump

  const HEX: string := "0123456789abcdef"

  lemma DigitIs(d: nat)
    requires d < 16
    ensures Digit(d) == HEX[d]
  {
  }

  /** The number a text of hexadecimal digits denotes. */
  function HexValue(t: string): nat {
    if t == [] then 0 else 16 * HexValue(t[..|t| - 1]) + DigitValue(t[|t| - 1])
  }

  lemma HexSnoc(t: string, c: char)
    ensures HexValue(t + [c]) == 16 * HexValue(t) + DigitValue(c)
  {
    assert (t + [c])[..|t|] == t;
  }

  /** `%0*x` writes the number, and no more zeros in front than the width asks for. */
  lemma {:induction false} HexWideDenotes(n: nat, width: nat)
    ensures HexValue(HexWide(n, width)) == n
    ensures |HexWide(n, width)| > width ==> HexWide(n, width)[0] != '0'
    decreases n, width
  {
    hide HexValue, DigitValue;
    if n == 0 && width == 0 {
      HexValueEmpty();
    } else {
      var w := if width == 0 then 0 else width - 1;
      HexWideDenotes(n / 16, w);
      HexSnoc(HexWide(n / 16, w), Digit(n % 16));
      if |HexWide(n, width)| > width && HexWide(n / 16, w) == [] {
        assert n / 16 == 0 && n > 0;
        DigitIs(n);
      }
    }
  }

  lemma HexValueEmpty()
    ensures HexValue([]) == 0
  {
  }

  /** A label denotes the offset, as far as the width of the number printed goes. */
  lemma LabelDenotes(style: Style, off: nat)
    ensures var t := Label(style, off);
            if style.Plain? then HexValue(t) == off % 256 && |t| == 2
            else HexValue(t) == off % WORD && |t| >= 4 && (|t| > 4 ==> t[0] != '0')
  {
    hide HexValue, HexWide, DigitValue;
    if style.Plain? {
      var n := off % 256;
      HexValueEmpty();
      HexSnoc([], Digit(n / 16));
      HexSnoc([Digit(n / 16)], Digit(n % 16));
      assert [Digit(n / 16)] + [Digit(n % 16)] == Hex2(n) && [] + [Digit(n / 16)] == [Digit(n / 16)];
    } else {
      HexWideDenotes(off % WORD, 4);
    }
  }

  /** Byte `b` at place `at` of a text: two hexadecimal digits and a space. */
  predicate CellAt(t: string, at: nat, b: Byte) {
    at + 3 <= |t| && t[at] == HEX[b / 16] && t[at + 1] == HEX[b % 16] && t[at + 2] == SPACE
  }

  lemma {:induction false} CellStands(chunk: seq<Byte>, i: nat)
    requires i < |chunk|
    ensures CellAt(Cells(chunk), 3 * i, chunk[i])
    decreases |chunk|
  {
    if i == 0 {
      DigitIs(chunk[0] / 16);
      DigitIs(chunk[0] % 16);
      assert Cells(chunk) == Hex2(chunk[0]) + [SPACE] + Cells(chunk[1..]);
    } else {
      CellStands(chunk[1..], i - 1);
      hide Hex2, Cells;
      assert Cells(chunk)[3..] == Cells(chunk[1..]) by { CellsTail(chunk); }
      CellLater(Cells(chunk), 3, Cells(chunk[1..]), 3 * (i - 1), chunk[i]);
    }
  }

  lemma CellsTail(chunk: seq<Byte>)
    requires chunk != []
    ensures Cells(chunk)[3..] == Cells(chunk[1..])
  {
    hide Hex2;
  }

  lemma CellLater(t: string, p: nat, rest: string, at: nat, b: Byte)
    requires p <= |t| && t[p..] == rest && CellAt(rest, at, b)
    ensures CellAt(t, p + at, b)
  {
    assert rest[at] == t[p + at] && rest[at + 1] == t[p + at + 1] && rest[at + 2] == t[p + at + 2];
  }

  /** What is shown for the bytes themselves, without gaps. */
  function ShownAll(chunk: seq<Byte>): (t: string)
    ensures |t| == |chunk|
    ensures forall i | 0 <= i < |t| :: t[i] == if 0x20 < chunk[i] < 0x7e then chunk[i] as char else '.'
  {
    seq(|chunk|, i requires 0 <= i < |chunk| => Shown(chunk[i]))
  }

  /** The character column of a row after `n` turns: a gap before either half, and the quirk of half a row. */
  function Layout(chunk: seq<Byte>, n: nat): string {
    var m := Min(n, |chunk|);
    if n == 0 then []
    else if n <= 8 then [SPACE] + ShownAll(chunk[..m])
    else if |chunk| < 8 then [SPACE] + ShownAll(chunk)
    else if |chunk| == 8 then [SPACE] + ShownAll(chunk) + Spaces(n - 8)
    else [SPACE] + ShownAll(chunk[..8]) + [SPACE] + ShownAll(chunk[8..m])
  }

  lemma ShownSnoc(chunk: seq<Byte>, b: Byte)
    ensures ShownAll(chunk + [b]) == ShownAll(chunk) + [Shown(b)]
  {
  }

  lemma {:induction false} ColumnIs(chunk: seq<Byte>, n: nat)
    requires 0 < |chunk| <= 16 && n <= 16
    ensures Column(chunk, n) == Layout(chunk, n)
  {
    if n > 0 {
      ColumnIs(chunk, n - 1);
      LayoutTurn(chunk, n - 1);
    }
  }

  lemma TurnIs(chunk: seq<Byte>, i: nat)
    requires 0 < |chunk| <= 16 && i < 16
    ensures i < |chunk| ==>
              Turn(chunk, i) == (if i == 0 || i == 8 then [SPACE] else []) + [Shown(chunk[i])]
    ensures i >= |chunk| ==> Turn(chunk, i) == if |chunk| == 8 then [SPACE] else []
  {
  }

  lemma ShownPrefix(chunk: seq<Byte>, from: nat, i: nat)
    requires from <= i < |chunk|
    ensures ShownAll(chunk[from..i + 1]) == ShownAll(chunk[from..i]) + [Shown(chunk[i])]
  {
    assert chunk[from..i + 1] == chunk[from..i] + [chunk[i]];
  }

  lemma LayoutByte(chunk: seq<Byte>, i: nat)
    requires |chunk| <= 16 && i < |chunk|
    ensures Layout(chunk, i + 1) ==
            Layout(chunk, i) + (if i == 0 || i == 8 then [SPACE] else []) + [Shown(chunk[i])]
  {
    hide ShownAll, Shown;
    if i < 8 {
      ShownPrefix(chunk, 0, i);
      assert chunk[0..i] == chunk[..i] && chunk[0..i + 1] == chunk[..i + 1];
      assert i == 0 ==> ShownAll(chunk[..0]) == [] by { ShownNone(); }
      assert i == 7 && |chunk| == 8 ==> chunk[..8] == chunk;
    } else {
      ShownPrefix(chunk, 8, i);
      assert ShownAll(chunk[8..8]) == [] by { ShownNone(); }
    }
  }

  lemma ShownNone()
    ensures ShownAll([]) == []
  {
  }

  lemma LayoutPast(chunk: seq<Byte>, i: nat)
    requires 0 < |chunk| <= i < 16
    ensures Layout(chunk, i + 1) == Layout(chunk, i) + if |chunk| == 8 then [SPACE] else []
  {
    hide ShownAll;
    assert chunk[..|chunk|] == chunk;
    if |chunk| == 8 {
      assert Spaces(i + 1 - 8) == Spaces(i - 8) + [SPACE];
      assert i == 8 ==> Spaces(0) == [];
    }
  }

  lemma LayoutTurn(chunk: seq<Byte>, i: nat)
    requires 0 < |chunk| <= 16 && i < 16
    ensures Layout(chunk, i + 1) == Layout(chunk, i) + Turn(chunk, i)
  {
    TurnIs(chunk, i);
    hide Turn, Layout, Shown;
    if i < |chunk| {
      LayoutByte(chunk, i);
    } else {
      LayoutPast(chunk, i);
    }
  }

  // ---------------------------------------------------------------------
  // In the whole text
  // ---------------------------------------------------------------------

  /** The part of a line before its first space. */
  function Offset(t: string): string {
    if Find(t, SPACE, 0).Some? then t[..Find(t, SPACE, 0).value] else t
  }

  /** The part of a line after its first space. */
  function Rest(t: string): string {
    if Find(t, SPACE, 0).Some? && Find(t, SPACE, 0).value < |t| then t[Find(t, SPACE, 0).value + 1..] else []
  }

  /** The line of a text that shows row `r`, below the header. */
  function Row(text: string, r: nat): string {
    var lines := Split(text, NEWLINE);
    if 1 + r < |lines| then lines[1 + r] else []
  }

  lemma LineParts(style: Style, off: nat, chunk: seq<Byte>)
    requires |chunk| <= 16
    ensures Offset(Line(style, off, chunk)) == Label(style, off)
    ensures Rest(Line(style, off, chunk)) == Columns(style, chunk)
  {
    hide Label, Columns;
    FindAfter(Label(style, off), Columns(style, chunk), SPACE, 0);
  }

  lemma RowStands(style: Style, buf: seq<Byte>, r: nat)
    requires r < RowCount(|buf|)
    ensures Row(Printed(style, buf), r) == Line(style, 16 * r, Chunk(buf, r))
  {
    PrintedSplits(style, buf);
    hide Printed, Split, Line, Chunk;
  }

  lemma RowParts(style: Style, buf: seq<Byte>, r: nat)
    requires r < RowCount(|buf|)
    ensures Offset(Row(Printed(style, buf), r)) == Label(style, 16 * r)
    ensures Rest(Row(Printed(style, buf), r)) == Columns(style, Chunk(buf, r))
  {
    RowStands(style, buf, r);
    LineParts(style, 16 * r, Chunk(buf, r));
    hide *;
  }

  /** Every row starts with its offset: in one byte for `dump`, in 32 bits for `hexdump`. */
  lemma OffsetsShown(style: Style, buf: seq<Byte>, r: nat)
    requires r < RowCount(|buf|)
    ensures var t := Offset(Row(Printed(style, buf), r));
            if style.Plain? then HexValue(t) == 16 * r % 256 && |t| == 2
            else HexValue(t) == 16 * r % WORD && |t| >= 4 && (|t| > 4 ==> t[0] != '0')
  {
    RowParts(style, buf, r);
    LabelDenotes(style, 16 * r);
    hide *;
  }

  /** After the offset, byte `k` stands in its row as two digits and a space, three places a byte. */
  lemma BytesShown(style: Style, buf: seq<Byte>, k: nat)
    requires k < |buf|
    ensures CellAt(Rest(Row(Printed(style, buf), k / 16)), 3 * (k % 16), buf[k])
  {
    var r, i := k / 16, k % 16;
    assert Chunk(buf, r)[i] == buf[k];
    RowParts(style, buf, r);
    CellsFirst(style, Chunk(buf, r), i);
    hide *;
  }

  lemma CellsFirst(style: Style, chunk: seq<Byte>, i: nat)
    requires |chunk| <= 16 && i < |chunk|
    ensures CellAt(Columns(style, chunk), 3 * i, chunk[i])
  {
    CellStands(chunk, i);
    hide Cells, Column;
  }

  /** A text that is blank from place `from` to place `to`. */
  predicate Blank(t: string, from: nat, to: nat) {
    from <= to <= |t| && forall j | from <= j < to :: t[j] == SPACE
  }

  /**
   * After its bytes a row of a `dump` ends, and a row of a `hexdump` is blank up to the
   * character column, which is the rest of it.
   */
  lemma ColumnStands(style: Style, buf: seq<Byte>, r: nat)
    requires r < RowCount(|buf|)
    ensures var t, chunk := Rest(Row(Printed(style, buf), r)), Chunk(buf, r);
            if style.Plain? then |t| == 3 * |chunk|
            else Blank(t, 3 * |chunk|, 50) && t[50..] == Layout(chunk, 16)
  {
    RowParts(style, buf, r);
    ColumnsEnd(style, Chunk(buf, r));
    hide *;
  }

  lemma ColumnsEnd(style: Style, chunk: seq<Byte>)
    requires 0 < |chunk| <= 16
    ensures var t := Columns(style, chunk);
            if style.Plain? then |t| == 3 * |chunk|
            else Blank(t, 3 * |chunk|, 50) && t[50..] == Layout(chunk, 16)
  {
    ColumnIs(chunk, 16);
    hide Cells, Layout, Column;
  }

  /** Byte `k` stands in the character column of its row: itself when printable, else a dot. */
  lemma CharactersShown(buf: seq<Byte>, k: nat)
    requires k < |buf|
    ensures var t, at := Rest(Row(Printed(Full, buf), k / 16)), 51 + k % 16 + (if k % 16 < 8 then 0 else 1);
            at < |t| && t[at] == if 0x20 < buf[k] < 0x7e then buf[k] as char else '.'
  {
    var r, i := k / 16, k % 16;
    var chunk := Chunk(buf, r);
    assert chunk[i] == buf[k];
    RowParts(Full, buf, r);
    CharacterStands(chunk, i);
    hide *;
  }

  lemma CharacterStands(chunk: seq<Byte>, i: nat)
    requires |chunk| <= 16 && i < |chunk|
    ensures var t, at := Columns(Full, chunk), 51 + i + (if i < 8 then 0 else 1);
            at < |t| && t[at] == if 0x20 < chunk[i] < 0x7e then chunk[i] as char else '.'
  {
    ColumnsEnd(Full, chunk);
    LayoutShows(chunk, i);
    hide *;
    PlaceLater(Columns(Full, chunk), 50, Layout(chunk, 16), 1 + i + (if i < 8 then 0 else 1));
  }

  lemma PlaceLater(t: string, p: nat, rest: string, at: nat)
    requires p <= |t| && t[p..] == rest && at < |rest|
    ensures p + at < |t| && t[p + at] == rest[at]
  {
  }

  lemma LayoutShows(chunk: seq<Byte>, i: nat)
    requires |chunk| <= 16 && i < |chunk|
    ensures var at := 1 + i + (if i < 8 then 0 else 1);
            at < |Layout(chunk, 16)| && Layout(chunk, 16)[at] == if 0x20 < chunk[i] < 0x7e then chunk[i] as char else '.'
  {
  }

  function Numbers(): (s: seq<Byte>)
    ensures |s| == 16 && forall i | 0 <= i < 16 :: s[i] == i
  {
    seq(16, i requires 0 <= i < 16 => i)
  }

  lemma HeaderParts(style: Style)
    ensures Header(style) == Spaces(if style.Plain? then 3 else 5) + Cells(Numbers())
  {
    hide Cells;
  }

  lemma HeaderLine(style: Style, buf: seq<Byte>)
    ensures Split(Printed(style, buf), NEWLINE)[0] == Header(style)
  {
    PrintedSplits(style, buf);
    hide Printed, Split, Header;
  }

  /** The header line: three or five spaces, then the sixteen column numbers. */
  lemma HeaderShown(style: Style, buf: seq<Byte>)
    ensures var t, w := Split(Printed(style, buf), NEWLINE)[0], if style.Plain? then 3 else 5;
            |t| == w + 48 && Blank(t, 0, w) && forall i | 0 <= i < 16 :: CellAt(t, w + 3 * i, i)
  {
    HeaderLine(style, buf);
    HeaderStands(style);
    hide *;
  }

  lemma HeaderStands(style: Style)
    ensures var t, w := Header(style), if style.Plain? then 3 else 5;
            |t| == w + 48 && Blank(t, 0, w) && forall i | 0 <= i < 16 :: CellAt(t, w + 3 * i, i)
  {
    var t, w, cells := Header(style), if style.Plain? then 3 else 5, Cells(Numbers());
    HeaderParts(style);
    hide Cells, Header, Spaces, CellAt;
    assert t[w..] == cells;
    forall i | 0 <= i < 16 ensures CellAt(t, w + 3 * i, i) {
      CellStands(Numbers(), i);
      CellLater(t, w, cells, 3 * i, i);
    }
  }
}
