/**
 * The hex dumpers of lib/printlog.c. Output is the sequence of character codes printed
 * after the optional title. `dump` prints a two-digit offset and up to sixteen bytes a
 * line; `hexdump` a longer offset, the bytes, and a column of printable characters.
 */
module HexDump {
  import opened Common
  import opened CString

  const NEWLINE: char := '\n'

  const SPACE: char := ' '

  // ---------------------------------------------------------------------
  // Formatting
  // ---------------------------------------------------------------------

  function Digit(d: nat): (c: char)
    requires d < 16
    ensures c != SPACE && c != NEWLINE
    ensures DigitValue(c) == d
  {
    if d < 10 then ('0' as int + d) as char else ('a' as int + d - 10) as char
  }

  function DigitValue(c: char): nat {
    if '0' <= c <= '9' then c as int - '0' as int
    else if 'a' <= c <= 'f' then c as int - 'a' as int + 10
    else 0
  }

  /** `%02x` of a byte */
  function Hex2(b: nat): (t: string)
    requires b < 256
    ensures SPACE !in t && NEWLINE !in t && |t| == 2
  {
    [Digit(b / 16), Digit(b % 16)]
  }

  /** `%0*x`: hexadecimal, with at least `width` digits. */
  function HexWide(n: nat, width: nat): (t: string)
    ensures SPACE !in t && NEWLINE !in t && |t| >= width
    decreases n, width
  {
    if n == 0 && width == 0 then [] else HexWide(n / 16, if width == 0 then 0 else width - 1) + [Digit(n % 16)]
  }

  /** The byte cells of a line, each followed by a space. */
  function Cells(chunk: seq<Byte>): (t: string)
    ensures |t| == 3 * |chunk|
    ensures NEWLINE !in t
  {
    if chunk == [] then [] else Hex2(chunk[0]) + [SPACE] + Cells(chunk[1..])
  }

  function Spaces(n: nat): (t: string)
    ensures |t| == n && NEWLINE !in t && forall i | 0 <= i < n :: t[i] == SPACE
  {
    seq(n, _ => SPACE)
  }

  /** The character shown for a byte. */
  function Shown(b: Byte): (c: char)
    ensures c != SPACE && c != NEWLINE
  {
    if 0x20 < b < 0x7e then b as char else '.'
  }

  /** What turn `i` of the character column prints: a gap at every eighth byte, then the byte if there is one. */
  function Turn(chunk: seq<Byte>, i: nat): (t: string)
    ensures NEWLINE !in t
  {
    (if (if i < |chunk| then i else |chunk|) % 8 == 0 then [SPACE] else [])
    + (if i < |chunk| then [Shown(chunk[i])] else [])
  }

  /** The character column after its first `n` turns. */
  function Column(chunk: seq<Byte>, n: nat): (t: string)
    ensures NEWLINE !in t
  {
    if n == 0 then [] else Column(chunk, n - 1) + Turn(chunk, n - 1)
  }

  // ---------------------------------------------------------------------
  // Lines and texts
  // ---------------------------------------------------------------------

  datatype Style = Plain | Full

  /** The offset label: one byte of it for `dump`; an `int` in hexadecimal for `hexdump`. */
  function Label(style: Style, off: nat): (t: string)
    ensures SPACE !in t && NEWLINE !in t
  {
    if style.Plain? then Hex2(off % 256) else HexWide(off % WORD, 4)
  }

  /** What follows the label: the cells, and for `hexdump` blank cells up to sixteen and the character column. */
  function Columns(style: Style, chunk: seq<Byte>): (t: string)
    requires |chunk| <= 16
    ensures NEWLINE !in t
  {
    if style.Plain? then Cells(chunk)
    else Cells(chunk) + Spaces(3 * (16 - |chunk|)) + Spaces(2) + Column(chunk, 16)
  }

  function Line(style: Style, off: nat, chunk: seq<Byte>): (t: string)
    requires |chunk| <= 16
    ensures NEWLINE !in t
  {
    Label(style, off) + [SPACE] + Columns(style, chunk)
  }

  function Header(style: Style): (t: string)
    ensures NEWLINE !in t
  {
    Spaces(if style.Plain? then 3 else 5) + Cells(seq(16, i requires 0 <= i < 16 => i))
  }

  /** Sixteen bytes a row, rounded up. */
  function RowCount(n: nat): nat {
    (n + 15) / 16
  }

  function Min(a: nat, b: nat): nat {
    if a < b then a else b
  }

  /** The bytes of row `r`. */
  function Chunk(buf: seq<Byte>, r: nat): (chunk: seq<Byte>)
    requires r < RowCount(|buf|)
    ensures 0 < |chunk| <= 16
  {
    buf[16 * r..Min(16 * r + 16, |buf|)]
  }

  function Rows(style: Style, buf: seq<Byte>): (rows: seq<string>)
    ensures |rows| == RowCount(|buf|)
    ensures forall r | 0 <= r < |rows| :: rows[r] == Line(style, 16 * r, Chunk(buf, r))
  {
    seq(RowCount(|buf|), r requires 0 <= r < RowCount(|buf|) => Line(style, 16 * r, Chunk(buf, r)))
  }

  /** Everything printed: the header line, the rows, and a final newline. */
  function Printed(style: Style, buf: seq<Byte>): string {
    Header(style) + [NEWLINE] + (if buf == [] then [] else Join(Rows(style, buf), NEWLINE)) + [NEWLINE]
  }

  // ---------------------------------------------------------------------
  // Reading a dump back
  // ---------------------------------------------------------------------

  /** Up to `n` cells, stopping at a blank one or at the end. */
  function ReadCells(t: string, n: nat): seq<nat> {
    if n == 0 || |t| < 3 || t[0] == SPACE then []
    else [16 * DigitValue(t[0]) + DigitValue(t[1])] + ReadCells(t[3..], n - 1)
  }

  /** The bytes of a line: the cells after the first space. */
  function ReadLine(t: string): seq<nat> {
    match Find(t, SPACE, 0)
    case None => []
    case Some(i) => ReadCells(t[i + 1..], 16)
  }

  function ReadLines(lines: seq<string>): seq<nat> {
    if lines == [] then [] else ReadLines(lines[..|lines| - 1]) + ReadLine(lines[|lines| - 1])
  }

  /** The bytes shown by a whole dump, whose first line is the header. */
  function ReadBack(t: string): seq<nat> {
    ReadLines(Split(t, NEWLINE)[1..])
  }

  lemma CellRead(b: Byte, rest: string, n: nat)
    requires n > 0
    ensures ReadCells(Hex2(b) + [SPACE] + rest, n) == [b] + ReadCells(rest, n - 1)
  {
    var t := Hex2(b) + [SPACE] + rest;
    assert t[0] == Digit(b / 16) && t[1] == Digit(b % 16);
    assert t[3..] == rest;
    hide Digit, DigitValue;
    assert 16 * DigitValue(t[0]) + DigitValue(t[1]) == b;
  }

  lemma {:induction false} CellsRead(chunk: seq<Byte>, rest: string, n: nat)
    requires |chunk| <= n && (|chunk| == n || |rest| < 3 || rest[0] == SPACE)
    ensures ReadCells(Cells(chunk) + rest, n) == chunk
    decreases |chunk|
  {
    if chunk == [] {
      assert Cells(chunk) + rest == rest;
    } else {
      hide ReadCells, Hex2;
      assert Cells(chunk) + rest == Hex2(chunk[0]) + [SPACE] + (Cells(chunk[1..]) + rest);
      CellRead(chunk[0], Cells(chunk[1..]) + rest, n);
      CellsRead(chunk[1..], rest, n - 1);
    }
  }

  lemma {:induction false} FindAfter(p: string, s: string, c: char, i: nat)
    requires c !in p && i <= |p|
    ensures Find(p + [c] + s, c, i) == Some(|p|)
    decreases |p| - i
  {
    if i < |p| {
      assert (p + [c] + s)[i] == p[i];
      FindAfter(p, s, c, i + 1);
    }
  }

  lemma LineRead(style: Style, off: nat, chunk: seq<Byte>)
    requires |chunk| <= 16
    ensures ReadLine(Line(style, off, chunk)) == chunk
  {
    var rest := if style.Plain? then [] else Spaces(3 * (16 - |chunk|)) + Spaces(2) + Column(chunk, 16);
    assert Columns(style, chunk) == Cells(chunk) + rest;
    FindAfter(Label(style, off), Columns(style, chunk), SPACE, 0);
    CellsRead(chunk, rest, 16);
  }

  lemma ReadLinesSnoc(lines: seq<string>, t: string)
    ensures ReadLines(lines + [t]) == ReadLines(lines) + ReadLine(t)
  {
    assert (lines + [t])[..|lines|] == lines;
  }

  /** How many bytes the first `k` rows show. */
  function Reach(buf: seq<Byte>, k: nat): (n: nat)
    ensures n <= |buf|
  {
    Min(16 * k, |buf|)
  }

  lemma ChunkNext(buf: seq<Byte>, r: nat)
    requires r < RowCount(|buf|)
    ensures Reach(buf, r) == 16 * r < |buf|
    ensures Reach(buf, r + 1) == 16 * r + |Chunk(buf, r)|
    ensures buf[..Reach(buf, r + 1)] == buf[..Reach(buf, r)] + Chunk(buf, r)
  {
  }

  /** What the first `k` rows read back as. */
  function Shows(style: Style, buf: seq<Byte>, k: nat): seq<nat>
    requires k <= RowCount(|buf|)
  {
    ReadLines(Rows(style, buf)[..k])
  }

  lemma RowRead(style: Style, buf: seq<Byte>, r: nat)
    requires r < RowCount(|buf|)
    ensures Shows(style, buf, r + 1) == Shows(style, buf, r) + Chunk(buf, r)
  {
    hide Rows, Line, Chunk, ReadLine, ReadLines;
    var rows := Rows(style, buf);
    LineRead(style, 16 * r, Chunk(buf, r));
    ReadLinesSnoc(rows[..r], rows[r]);
    assert rows[..r + 1] == rows[..r] + [rows[r]];
  }

  lemma {:induction false} RowsRead(style: Style, buf: seq<Byte>, k: nat)
    requires k <= RowCount(|buf|)
    ensures Shows(style, buf, k) == buf[..Reach(buf, k)]
  {
    if k == 0 {
      assert Rows(style, buf)[..0] == [];
    } else {
      hide *;
      var r := k - 1;
      calc {
        Shows(style, buf, r + 1);
        { RowRead(style, buf, r); }
        Shows(style, buf, r) + Chunk(buf, r);
        { RowsRead(style, buf, r); }
        buf[..Reach(buf, r)] + Chunk(buf, r);
        { ChunkNext(buf, r); }
        buf[..Reach(buf, r + 1)];
      }
    }
  }

  /** The lines between the header and the end: the rows, or an empty line for no bytes. */
  function BodyLines(style: Style, buf: seq<Byte>): (lines: seq<string>)
    ensures |lines| > 0
  {
    if buf == [] then [[]] else Rows(style, buf)
  }

  /** The lines of a printed dump: the header, the body, and an empty one. */
  function Lines(style: Style, buf: seq<Byte>): (lines: seq<string>)
    ensures |lines| > 1
  {
    [Header(style)] + BodyLines(style, buf) + [[]]
  }

  lemma {:induction false} JoinSnoc(ps: seq<string>, p: string, sep: char)
    requires |ps| > 0
    ensures Join(ps + [p], sep) == Join(ps, sep) + [sep] + p
    decreases |ps|
  {
    if |ps| > 1 {
      JoinSnoc(ps[1..], p, sep);
      assert (ps + [p])[1..] == ps[1..] + [p];
    } else {
      assert (ps + [p])[1..] == [p];
    }
  }

  lemma PrintedIsLines(style: Style, buf: seq<Byte>)
    ensures Printed(style, buf) == Join(Lines(style, buf), NEWLINE)
  {
    var body := BodyLines(style, buf);
    assert Printed(style, buf) == Header(style) + [NEWLINE] + Join(body, NEWLINE) + [NEWLINE];
    hide BodyLines, Header;
    JoinSnoc([Header(style)] + body, [], NEWLINE);
    assert ([Header(style)] + body)[1..] == body;
    assert Join([Header(style)] + body, NEWLINE) == Header(style) + [NEWLINE] + Join(body, NEWLINE);
  }

  lemma LinesFree(style: Style, buf: seq<Byte>)
    ensures SepFree(Lines(style, buf), NEWLINE)
  {
    hide Header, Rows, Line, Chunk;
    var lines, body := Lines(style, buf), BodyLines(style, buf);
    forall i | 0 <= i < |lines| ensures NEWLINE !in lines[i] {
      if 0 < i < |lines| - 1 {
        assert lines[i] == body[i - 1];
      }
    }
  }

  lemma PrintedSplits(style: Style, buf: seq<Byte>)
    ensures Split(Printed(style, buf), NEWLINE) == Lines(style, buf)
  {
    hide *;
    LinesFree(style, buf);
    PrintedIsLines(style, buf);
    JoinThenSplit(Lines(style, buf), NEWLINE);
  }

  /** Both dumps can be read back: the cells, in order, are exactly the bytes dumped. */
  lemma DumpReadsBack(style: Style, buf: seq<Byte>)
    ensures ReadBack(Printed(style, buf)) == buf
  {
    PrintedSplits(style, buf);
    LinesTail(style, buf);
    BodyRead(style, buf);
    hide BodyLines, Lines, Printed, ReadLines, ReadLine, Split;
    calc {
      ReadBack(Printed(style, buf));
      ReadLines(Lines(style, buf)[1..]);
      { ReadLinesSnoc(BodyLines(style, buf), []); }
      ReadLines(BodyLines(style, buf)) + ReadLine([]);
      buf;
    }
  }

  lemma LinesTail(style: Style, buf: seq<Byte>)
    ensures Lines(style, buf)[1..] == BodyLines(style, buf) + [[]]
  {
    hide BodyLines, Header;
  }

  lemma BodyRead(style: Style, buf: seq<Byte>)
    ensures ReadLines(BodyLines(style, buf)) == buf
    ensures ReadLine([]) == []
  {
    if buf != [] {
      var k := RowCount(|buf|);
      assert Reach(buf, k) == |buf|;
      RowsRead(style, buf, k);
      assert Rows(style, buf)[..k] == Rows(style, buf) && buf[..|buf|] == buf;
      assert BodyLines(style, buf) == Rows(style, buf);
      assert Shows(style, buf, k) == ReadLines(Rows(style, buf)[..k]);
    }
  }

  /** A printed dump has one line per sixteen bytes, rounded up, after the header. */
  lemma DumpLineCount(style: Style, buf: seq<Byte>)
    requires buf != []
    ensures |Split(Printed(style, buf), NEWLINE)| == 1 + RowCount(|buf|) + 1
    ensures 16 * (RowCount(|buf|) - 1) < |buf| <= 16 * RowCount(|buf|)
  {
    PrintedSplits(style, buf);
  }

  /** The characters of a text other than spaces. */
  function Visible(t: string): string {
    if t == [] then []
    else Visible(t[..|t| - 1]) + if t[|t| - 1] == SPACE then [] else [t[|t| - 1]]
  }

  lemma VisibleSnoc(t: string, c: char)
    ensures Visible(t + [c]) == Visible(t) + if c == SPACE then [] else [c]
  {
    assert (t + [c])[..|t|] == t;
  }

  lemma TurnShows(t: string, chunk: seq<Byte>, i: nat)
    ensures Visible(t + Turn(chunk, i)) == Visible(t) + if i < |chunk| then [Shown(chunk[i])] else []
  {
    var gap: string := if Min(i, |chunk|) % 8 == 0 then [SPACE] else [];
    assert Visible(t + gap) == Visible(t) by {
      hide Visible;
      VisibleSnoc(t, SPACE);
      assert t + [] == t;
    }
    if i < |chunk| {
      assert t + Turn(chunk, i) == (t + gap) + [Shown(chunk[i])];
      hide Visible, Turn;
      VisibleSnoc(t + gap, Shown(chunk[i]));
    } else {
      assert t + Turn(chunk, i) == t + gap;
    }
  }

  /** Apart from its gaps, the character column shows every byte of the row once, in order. */
  lemma {:induction false} ColumnShowsBytes(chunk: seq<Byte>, n: nat)
    ensures |Visible(Column(chunk, n))| == Min(n, |chunk|)
    ensures forall i | 0 <= i < Min(n, |chunk|) ::
              Visible(Column(chunk, n))[i] == if 0x20 < chunk[i] < 0x7e then chunk[i] as char else '.'
  {
    hide Visible, Turn;
    if n > 0 {
      ColumnShowsBytes(chunk, n - 1);
      TurnShows(Column(chunk, n - 1), chunk, n - 1);
    } else {
      assert Visible([]) == [] by { VisibleEmpty(); }
    }
  }

  lemma VisibleEmpty()
    ensures Visible([]) == []
  {
  }

  // ---------------------------------------------------------------------
  // The printing loops
  // ---------------------------------------------------------------------

  /** What has been printed below the header after `k` rows. */
  function Body(style: Style, buf: seq<Byte>, k: nat): string
    requires k <= RowCount(|buf|)
  {
    if k == 0 then [] else Join(Rows(style, buf)[..k], NEWLINE)
  }

  lemma BodyNext(style: Style, buf: seq<Byte>, k: nat)
    requires k < RowCount(|buf|)
    ensures Body(style, buf, k + 1) ==
            Body(style, buf, k) + (if k == 0 then [] else [NEWLINE]) + Line(style, 16 * k, Chunk(buf, k))
  {
    hide Line, Chunk, Rows;
    var rows := Rows(style, buf);
    assert rows[..k + 1] == rows[..k] + [rows[k]];
    if k > 0 {
      JoinSnoc(rows[..k], rows[k], NEWLINE);
    }
  }

  lemma CellsSnoc(chunk: seq<Byte>, b: Byte)
    ensures Cells(chunk + [b]) == Cells(chunk) + Hex2(b) + [SPACE]
  {
    if chunk == [] {
      assert chunk + [b] == [b];
    } else {
      CellsSnoc(chunk[1..], b);
      assert (chunk + [b])[1..] == chunk[1..] + [b];
    }
  }

  lemma CellsEmpty()
    ensures Cells([]) == []
  {
  }

  /** The sixteen column numbers over a dump. */
  method PrintHeader(style: Style) returns (out: string)
    ensures out == Header(style) + [NEWLINE]
  {
    hide Spaces, Hex2, Cells;
    out := Spaces(if style.Plain? then 3 else 5);
    assert Cells([]) == [] by { CellsEmpty(); }
    ghost var numbers: seq<Byte> := [];
    for i := 0 to 16
      invariant numbers == seq(i, j requires 0 <= j < i => j)
      invariant out == Spaces(if style.Plain? then 3 else 5) + Cells(numbers)
    {
      CellsSnoc(numbers, i);
      numbers := numbers + [i];
      out := out + Hex2(i) + [SPACE];
    }
    out := out + [NEWLINE];
  }

  /** Where rows begin and end. */
  lemma RowAt(buf: seq<Byte>, k: nat)
    requires k <= RowCount(|buf|)
    ensures Reach(buf, k) < |buf| <==> k < RowCount(|buf|)
    ensures k < RowCount(|buf|) ==>
              && Reach(buf, k) == 16 * k && Reach(buf, k + 1) == Min(16 * k + 16, |buf|)
              && Chunk(buf, k) == buf[Reach(buf, k)..Reach(buf, k + 1)]
  {
  }

  /** Everything printed so far: the header and `k` rows. */
  function SoFar(style: Style, buf: seq<Byte>, k: nat): string
    requires k <= RowCount(|buf|)
  {
    Header(style) + [NEWLINE] + Body(style, buf, k)
  }

  lemma SoFarEnds(style: Style, buf: seq<Byte>)
    ensures SoFar(style, buf, 0) == Header(style) + [NEWLINE]
    ensures SoFar(style, buf, RowCount(|buf|)) + [NEWLINE] == Printed(style, buf)
  {
    assert Rows(style, buf)[..RowCount(|buf|)] == Rows(style, buf);
    hide Header, Rows, Join;
    assert SoFar(style, buf, 0) == Header(style) + [NEWLINE];
  }

  lemma SoFarNext(style: Style, buf: seq<Byte>, k: nat)
    requires k < RowCount(|buf|)
    ensures SoFar(style, buf, k + 1) ==
            SoFar(style, buf, k) + (if k == 0 then [] else [NEWLINE]) + Line(style, 16 * k, Chunk(buf, k))
  {
    BodyNext(style, buf, k);
    hide Body, Header, Line, Chunk;
    Regroup(Header(style) + [NEWLINE], Body(style, buf, k), if k == 0 then [] else [NEWLINE],
            Line(style, 16 * k, Chunk(buf, k)));
  }

  lemma Regroup(a: string, b: string, c: string, d: string)
    ensures a + (b + c + d) == a + b + c + d
  {
  }

  // ---------------------------------------------------------------------
  // The places the loops read
  // ---------------------------------------------------------------------

  /** `*p` with the cursor at `q`, where `beyond` is the byte that follows the buffer in memory. */
  function Load(buf: seq<Byte>, beyond: Byte, q: nat): (val: Byte)
    requires q <= |buf|
  {
    if q < |buf| then buf[q] else beyond
  }

  /**
   * The places read by the first `i` turns of an inner loop over the row at `p` of a buffer
   * of `n` bytes: every turn reads, and the cursor stops at the end.
   */
  function TurnReads(p: nat, n: nat, i: nat): (places: seq<nat>)
    ensures |places| == i
    ensures forall j | 0 <= j < i :: places[j] == Min(p + j, n)
  {
    if i == 0 then [] else TurnReads(p, n, i - 1) + [Min(p + i - 1, n)]
  }

  /** The places read by one row: `hexdump` goes over it twice. */
  function RowReads(style: Style, n: nat, r: nat): seq<nat> {
    if style.Plain? then TurnReads(16 * r, n, 16) else TurnReads(16 * r, n, 16) + TurnReads(16 * r, n, 16)
  }

  /** The places read by the first `k` rows, in order. */
  function Reads(style: Style, n: nat, k: nat): seq<nat> {
    if k == 0 then [] else Reads(style, n, k - 1) + RowReads(style, n, k - 1)
  }

  ghost predicate Below(places: seq<nat>, n: nat) {
    forall x | x in places :: x < n
  }

  lemma BelowConcat(s: seq<nat>, t: seq<nat>, n: nat)
    ensures Below(s + t, n) <==> Below(s, n) && Below(t, n)
  {
    assert forall x :: x in s + t <==> x in s || x in t;
  }

  lemma TurnReadsBelow(r: nat, n: nat)
    requires r < RowCount(n)
    ensures Below(TurnReads(16 * r, n, 16), n) <==> 16 * r + 16 <= n
    ensures Below(TurnReads(16 * r, n, 16), n + 1)
  {
    var row := TurnReads(16 * r, n, 16);
    assert 16 * r < n;
    if 16 * r + 16 > n {
      assert row[n - 16 * r] == n;
      assert n in row;
    } else {
      assert forall j | 0 <= j < 16 :: row[j] < n;
    }
  }

  lemma RowReadsBelow(style: Style, n: nat, r: nat)
    requires r < RowCount(n)
    ensures Below(RowReads(style, n, r), n) <==> 16 * r + 16 <= n
    ensures Below(RowReads(style, n, r), n + 1)
  {
    var row := TurnReads(16 * r, n, 16);
    TurnReadsBelow(r, n);
    BelowConcat(row, row, n);
    BelowConcat(row, row, n + 1);
  }

  lemma ReadsNext(style: Style, n: nat, k: nat)
    ensures Reads(style, n, k + 1) == Reads(style, n, k) + RowReads(style, n, k)
  {
  }

  lemma {:induction false} ReadsBelow(style: Style, n: nat, k: nat)
    requires k <= RowCount(n)
    ensures Below(Reads(style, n, k), n) <==> 16 * k <= n
    ensures Below(Reads(style, n, k), n + 1)
    decreases k
  {
    if k > 0 {
      hide Reads, RowReads, Below;
      var r := k - 1;
      ReadsBelow(style, n, r);
      RowReadsBelow(style, n, r);
      ReadsNext(style, n, r);
      BelowConcat(Reads(style, n, r), RowReads(style, n, r), n);
      BelowConcat(Reads(style, n, r), RowReads(style, n, r), n + 1);
    }
  }

  /**
   * A dump reads inside its buffer exactly when the length is a multiple of sixteen;
   * otherwise it also reads the one place after the end, and no other.
   */
  lemma ReadsInsideIff(style: Style, n: nat)
    ensures (forall x | x in Reads(style, n, RowCount(n)) :: x < n) <==> n % 16 == 0
    ensures forall x | x in Reads(style, n, RowCount(n)) :: x <= n
  {
    var places := Reads(style, n, RowCount(n));
    ReadsBelow(style, n, RowCount(n));
    assert 16 * RowCount(n) <= n <==> n % 16 == 0;
    hide Reads, RowCount;
    assert Below(places, n) <==> n % 16 == 0;
    assert Below(places, n + 1);
  }

  /** A dump of one byte reads the place after it. */
  lemma OneByteReadsOn(style: Style)
    ensures RowCount(1) == 1 && 1 in Reads(style, 1, 1)
  {
    var row := TurnReads(0, 1, 16);
    assert row[1] == 1;
    assert Reads(style, 1, 1) == [] + RowReads(style, 1, 0);
    assert 1 in RowReads(style, 1, 0);
  }

  // ---------------------------------------------------------------------
  // The loops themselves
  // ---------------------------------------------------------------------

  /** A turn of an inner loop: the cursor, the place read, and the cell of the byte there. */
  lemma CellAt(buf: seq<Byte>, beyond: Byte, p: nat, i: nat)
    requires p <= |buf|
    ensures var q := Min(p + i, |buf|);
            && p <= q <= |buf| && Min(p + i + 1, |buf|) == (if q < |buf| then q + 1 else q)
            && TurnReads(p, |buf|, i + 1) == TurnReads(p, |buf|, i) + [q]
            && (q < |buf| ==> Cells(buf[p..q + 1]) == Cells(buf[p..q]) + Hex2(Load(buf, beyond, q)) + [SPACE])
  {
    var q := Min(p + i, |buf|);
    if q < |buf| {
      hide Cells, Hex2;
      CellsSnoc(buf[p..q], buf[q]);
      assert buf[p..q + 1] == buf[p..q] + [buf[q]];
    }
  }

  lemma LoopStart(buf: seq<Byte>, p: nat)
    requires p <= |buf|
    ensures Min(p, |buf|) == p && Cells(buf[p..p]) == [] && TurnReads(p, |buf|, 0) == [] && Spaces(0) == []
  {
  }

  /** The inner loop of `dump()`: the cells of one row, from cursor `p` on. */
  method PrintCells(buf: seq<Byte>, beyond: Byte, p: nat) returns (out: string, q: nat, ghost places: seq<nat>)
    requires p <= |buf|
    ensures q == Min(p + 16, |buf|) && p <= q && out == Cells(buf[p..q])
    ensures places == TurnReads(p, |buf|, 16)
  {
    hide *;
    LoopStart(buf, p);
    out, q, places := "", p, [];
    for i := 0 to 16
      invariant q == Min(p + i, |buf|) && p <= q <= |buf| && out == Cells(buf[p..q])
      invariant places == TurnReads(p, |buf|, i)
    {
      CellAt(buf, beyond, p, i);
      var val := Load(buf, beyond, q);
      places := places + [q];
      if q < |buf| {
        out := out + Hex2(val) + [SPACE];
        q := q + 1;
      }
    }
  }

  lemma BlankNext(t: string, n: nat)
    ensures t + Spaces(n) + Spaces(3) == t + Spaces(n + 3)
  {
  }

  /** The first inner loop of `hexdump()`: as many cells as there are bytes, then blank ones. */
  method PrintHexColumn(buf: seq<Byte>, beyond: Byte, p: nat)
    returns (out: string, q: nat, ghost places: seq<nat>)
    requires p <= |buf|
    ensures q == Min(p + 16, |buf|) && p <= q
    ensures out == Cells(buf[p..q]) + Spaces(3 * (16 - (q - p)))
    ensures places == TurnReads(p, |buf|, 16)
  {
    hide *;
    LoopStart(buf, p);
    out, q, places := "", p, [];
    ghost var blanks := 0;
    for i := 0 to 16
      invariant q == Min(p + i, |buf|) && p <= q <= |buf| && blanks == i - (q - p)
      invariant blanks > 0 ==> q == |buf|
      invariant out == Cells(buf[p..q]) + Spaces(3 * blanks)
      invariant places == TurnReads(p, |buf|, i)
    {
      CellAt(buf, beyond, p, i);
      var val := Load(buf, beyond, q);
      places := places + [q];
      if q < |buf| {
        out := out + Hex2(val) + [SPACE];
        q := q + 1;
      } else {
        BlankNext(Cells(buf[p..q]), 3 * blanks);
        out := out + Spaces(3);
        blanks := blanks + 1;
      }
    }
  }

  /** A turn of the second loop in terms of its cursor, which is a multiple of sixteen at the row's start. */
  lemma TurnAt(buf: seq<Byte>, beyond: Byte, p: nat, i: nat)
    requires p <= |buf| && p % 16 == 0 && i < 16
    ensures var chunk := buf[p..Min(p + 16, |buf|)];
            var q := Min(p + i, |buf|);
            && q <= |buf|
            && Column(chunk, i + 1) ==
                 Column(chunk, i) + (if q % 8 == 0 then [SPACE] else [])
                 + (if q < |buf| then [Shown(Load(buf, beyond, q))] else [])
  {
    var chunk := buf[p..Min(p + 16, |buf|)];
    ColumnNext(chunk, i);
    hide Shown, Column, Turn;
    var m, q := Min(i, |chunk|), Min(p + i, |buf|);
    assert q == p + m;
    RowOffset(p, m);
    assert i < |chunk| <==> q < |buf|;
  }

  lemma ColumnNext(chunk: seq<Byte>, i: nat)
    ensures Column(chunk, i + 1) ==
            Column(chunk, i) + (if Min(i, |chunk|) % 8 == 0 then [SPACE] else [])
            + (if i < |chunk| then [Shown(chunk[i])] else [])
  {
    hide Shown;
    var gap: string := if Min(i, |chunk|) % 8 == 0 then [SPACE] else [];
    var shown: string := if i < |chunk| then [Shown(chunk[i])] else [];
    assert Column(chunk, i + 1) == Column(chunk, i) + (gap + shown);
  }

  lemma {:induction false} RowOffset(p: nat, m: nat)
    requires p % 16 == 0
    ensures (p + m) % 8 == m % 8
  {
    if p > 0 {
      RowOffset(p - 16, m);
      SixteenOn(p - 16 + m);
    }
  }

  lemma SixteenOn(k: nat)
    ensures (k + 16) % 8 == k % 8
  {
  }

  /** The second inner loop of `hexdump()`: the character column. */
  method PrintCharColumn(buf: seq<Byte>, beyond: Byte, p: nat)
    returns (out: string, q: nat, ghost places: seq<nat>)
    requires p <= |buf| && p % 16 == 0
    ensures q == Min(p + 16, |buf|) && p <= q && out == Column(buf[p..q], 16)
    ensures places == TurnReads(p, |buf|, 16)
  {
    CellAt(buf, beyond, p, 16);
    ghost var chunk := buf[p..Min(p + 16, |buf|)];
    assert Column(chunk, 0) == [];
    hide *;
    LoopStart(buf, p);
    out, q, places := "", p, [];
    for i := 0 to 16
      invariant q == Min(p + i, |buf|) && p <= q <= |buf| && out == Column(chunk, i)
      invariant places == TurnReads(p, |buf|, i)
    {
      CellAt(buf, beyond, p, i);
      TurnAt(buf, beyond, p, i);
      var val := Load(buf, beyond, q);
      places := places + [q];
      out := out + (if q % 8 == 0 then [SPACE] else []);
      if q < |buf| {
        out := out + [Shown(val)];
        q := q + 1;
      }
    }
  }

  /** One pass of the outer loop of `dump()`, at offset `p`. */
  method DumpRow(buf: seq<Byte>, beyond: Byte, p: nat, ghost k: nat)
    returns (row: string, q: nat, ghost places: seq<nat>)
    requires k < RowCount(|buf|) && p == Reach(buf, k)
    ensures q == Reach(buf, k + 1)
    ensures row == (if k == 0 then [] else [NEWLINE]) + Line(Plain, 16 * k, Chunk(buf, k))
    ensures places == RowReads(Plain, |buf|, k)
  {
    RowAt(buf, k);
    row := [];
    if p % 16 == 0 {
      row := (if p == 0 then [] else [NEWLINE]) + (Label(Plain, p) + [SPACE]);
    }
    var cells;
    cells, q, places := PrintCells(buf, beyond, p);
    assert cells == Columns(Plain, Chunk(buf, k));
    hide Columns, Label, Chunk;
    row := row + cells;
  }

  /** One pass of the outer loop of `hexdump()`; the two cursors `h` and `t` start and end together. */
  method HexdumpRow(buf: seq<Byte>, beyond: Byte, h: nat, t: nat, ghost k: nat)
    returns (row: string, h': nat, t': nat, ghost places: seq<nat>)
    requires k < RowCount(|buf|) && h == t == Reach(buf, k)
    ensures h' == t' == Reach(buf, k + 1)
    ensures row == (if k == 0 then [] else [NEWLINE]) + Line(Full, 16 * k, Chunk(buf, k))
    ensures places == RowReads(Full, |buf|, k)
  {
    hide Chunk, Label, Cells, Spaces, Column;
    RowAt(buf, k);
    row := [];
    if t % 16 == 0 {
      row := (if t == 0 then [] else [NEWLINE]) + (Label(Full, t) + [SPACE]);
    }
    var cells, characters;
    ghost var more;
    cells, h', places := PrintHexColumn(buf, beyond, h);
    characters, t', more := PrintCharColumn(buf, beyond, t);
    places := places + more;
    cells := cells + Spaces(2) + characters;
    assert cells == Columns(Full, Chunk(buf, k));
    hide Columns;
    row := row + cells;
  }

  /** `dump()` and `fdump()`, without the title; what follows the buffer does not show. */
  method Dump(buf: seq<Byte>, beyond: Byte) returns (out: string, ghost places: seq<nat>)
    ensures out == Printed(Plain, buf)
    ensures places == Reads(Plain, |buf|, RowCount(|buf|))
  {
    out := PrintHeader(Plain);
    places := [];
    SoFarEnds(Plain, buf);
    hide SoFar, Printed, Line, Chunk, Header, RowReads;
    var size := |buf|;
    var len := size;
    ghost var k := 0;
    while len > 0
      invariant len <= size && k <= RowCount(size) && size - len == Reach(buf, k)
      invariant out == SoFar(Plain, buf, k) && places == Reads(Plain, size, k)
    {
      SoFarNext(Plain, buf, k);
      ghost var more;
      var row, q;
      row, q, more := DumpRow(buf, beyond, size - len, k);
      out := out + row;
      places := places + more;
      len := size - q;
      k := k + 1;
    }
    out := out + [NEWLINE];
  }

  /** `hexdump()` and `fhexdump()`, without the title; what follows the buffer does not show. */
  method Hexdump(buf: seq<Byte>, beyond: Byte) returns (out: string, ghost places: seq<nat>)
    ensures out == Printed(Full, buf)
    ensures places == Reads(Full, |buf|, RowCount(|buf|))
  {
    out := PrintHeader(Full);
    places := [];
    SoFarEnds(Full, buf);
    hide SoFar, Printed, Line, Chunk, Header, RowReads;
    var size, h, t := |buf|, 0, 0;
    ghost var k := 0;
    while t < size
      invariant k <= RowCount(size) && h == t == Reach(buf, k)
      invariant out == SoFar(Full, buf, k) && places == Reads(Full, size, k)
    {
      SoFarNext(Full, buf, k);
      ghost var more;
      var row;
      row, h, t, more := HexdumpRow(buf, beyond, h, t, k);
      out := out + row;
      places := places + more;
      k := k + 1;
    }
    out := out + [NEWLINE];
  }
}
