/** The hex dump of the edit control: printEditCtrlPacketBytes, a row-by-row description of the text,
    and a reader for it. */
module HexDump {
  import opened Bytes
  import opened PacketObject

  // ---------------------------------------------------------------- the text

  function HexDigit(n: nat): (c: char)
    requires n < 16
    ensures c != ' ' && c != '\t' && c != '\n'
  {
    if n < 10 then (48 + n) as char else (55 + n) as char
  }

  /** %02X */
  function Hex2(b: byte): string {
    [HexDigit(b / 16), HexDigit(b % 16)]
  }

  /** %X */
  function HexUp(n: nat): (s: string)
    ensures ' ' !in s && '\t' !in s && '\n' !in s
  {
    if n < 16 then [HexDigit(n)] else HexUp(n / 16) + [HexDigit(n % 16)]
  }

  /** %04X: at least four digits. */
  function Hex4(n: nat): (s: string)
    ensures ' ' !in s && '\t' !in s && '\n' !in s
  {
    var h := HexUp(n);
    if |h| < 4 then seq(4 - |h|, _ => '0') + h else h
  }

  /** A byte and a blank, or three blanks. */
  function Cell(c: seq<byte>, i: nat): (s: string)
    ensures |s| == 3
  {
    if i < |c| then Hex2(c[i]) + " " else "   "
  }

  /** Column `i` of a row: a cell, and a tab after the eighth. */
  function Column(c: seq<byte>, i: nat): string {
    Cell(c, i) + if i == 7 then "\t" else ""
  }

  /** The columns from `i` to the sixteenth. */
  function Columns(c: seq<byte>, i: nat): string
    decreases 16 - i, c
  {
    if i >= 16 then "" else Column(c, i) + Columns(c, i + 1)
  }

  function AsciiChar(b: byte): (c: char)
    ensures c != '\t' && c != '\n'
  {
    if IsAlnum(b) then b as char else '.'
  }

  function Ascii(c: seq<byte>): (s: string)
    ensures |s| == |c| && '\t' !in s && '\n' !in s
  {
    seq(|c|, i requires 0 <= i < |c| => AsciiChar(c[i]))
  }

  function Head(off: nat): string {
    Hex4(off) + ": "
  }

  function Tail(c: seq<byte>): string {
    " " + Ascii(c) + "\r\n"
  }

  function Row(c: seq<byte>, off: nat): string {
    Head(off) + Columns(c, 0) + Tail(c)
  }

  function Chunk(d: seq<byte>): (c: seq<byte>)
    ensures |c| <= 16 && c <= d && (d != [] ==> c != [])
  {
    if |d| <= 16 then d else d[..16]
  }

  /** One row for every 16 bytes, the last one possibly shorter. */
  function Rows(d: seq<byte>, off: nat): string {
    if d == [] then "" else Row(Chunk(d), off) + Rows(d[|Chunk(d)|..], off + 16)
  }

  // ---------------------------------------------------------------- the code

  lemma Assoc(a: string, b: string, c: string)
    ensures a + b + c == a + (b + c)
  {
  }

  lemma ColumnsStep(c: seq<byte>, i: nat)
    requires i < 16
    ensures Columns(c, i) == Column(c, i) + Columns(c, i + 1)
    ensures Columns(c, 16) == ""
  {
  }

  lemma RowsStep(d: seq<byte>, off: nat)
    ensures d == [] ==> Rows(d, off) == ""
    ensures d != [] ==> Rows(d, off) == Row(Chunk(d), off) + Rows(d[|Chunk(d)|..], off + 16)
  {
  }

  /** The hex digits of one byte, and a tab after every eighth. */
  method PrintByte(b: byte, count: nat, ghost c: seq<byte>, text: string) returns (out: string)
    requires count < |c| && c[count] == b
    ensures out == text + Column(c, count)
  {
    var strTmp := Hex2(b);
    out := text + (strTmp + " ");
    if count + 1 == 8 {
      out := out + "\t";
      Assoc(text, strTmp + " ", "\t");
    } else {
      assert strTmp + " " + "" == strTmp + " ";
    }
  }

  /** Blanks in place of a missing byte. */
  method PrintBlank(count: nat, ghost c: seq<byte>, text: string) returns (out: string)
    requires count >= |c|
    ensures out == text + Column(c, count)
  {
    out := text + "  ";
    out := out + " ";
    Assoc(text, "  ", " ");
    assert "  " + " " == "   ";
    if count + 1 == 8 {
      out := out + "\t";
      Assoc(text, "   ", "\t");
    } else {
      assert "   " + "" == "   ";
    }
  }

  /** The ASCII half of a row, read through its own cursor. */
  method PrintAscii(d: seq<byte>, at: nat, n: nat, text: string) returns (out: string, p: nat)
    requires at + n <= |d|
    ensures out == text + Tail(d[at..at + n]) && p == at + n
  {
    out, p := text + " ", at;
    for charCount := 0 to n
      invariant p == at + charCount && out == text + " " + Ascii(d[at..at + charCount])
    {
      assert d[at..at + charCount + 1] == d[at..at + charCount] + [d[p]];
      AsciiSnoc(d[at..at + charCount], d[p]);
      Assoc(text + " ", Ascii(d[at..at + charCount]), [AsciiChar(d[p])]);
      out := out + [if IsAlnum(d[p]) then d[p] as char else '.'];
      p := p + 1;
    }
    out := out + "\r\n";
    Assoc(text, " ", Ascii(d[at..at + n]));
    Assoc(text, " " + Ascii(d[at..at + n]), "\r\n");
  }

  lemma AsciiSnoc(c: seq<byte>, b: byte)
    ensures Ascii(c + [b]) == Ascii(c) + [AsciiChar(b)]
  {
  }

  /** Blanks in place of the missing bytes of the last row. */
  method PrintPadding(n: nat, ghost c: seq<byte>, text: string) returns (out: string)
    requires |c| == n <= 16
    ensures out == text + Columns(c, n)
  {
    hide Columns, Column;
    out := text;
    var byteCount16 := n;
    ghost var goal := text + Columns(c, n);
    for spaceCount := 0 to 16 - n
      invariant byteCount16 == n + spaceCount
      invariant out + Columns(c, byteCount16) == goal
    {
      ColumnsStep(c, byteCount16);
      Assoc(out, Column(c, byteCount16), Columns(c, byteCount16 + 1));
      out := PrintBlank(byteCount16, c, out);
      byteCount16 := byteCount16 + 1;
    }
    ColumnsStep(c, 0);
    assert out + "" == out;
  }

  /** The offset in front of a row. */
  method PrintOffset(offset: nat, text: string) returns (out: string)
    ensures out == text + Head(offset)
  {
    var strTmp := Hex4(offset) + ":";
    out := text + (strTmp + " ");
    assert strTmp + " " == Head(offset);
  }

  lemma RowDone(done: string, c: seq<byte>, off: nat)
    ensures done + Head(off) + Columns(c, 0) + Tail(c) == done + Row(c, off)
  {
    Assoc(done, Head(off), Columns(c, 0));
    Assoc(done, Head(off) + Columns(c, 0), Tail(c));
  }

  /** The text after `k` bytes of the row at `offset`: complete rows, and the row so far. */
  ghost predicate AtByte(d: seq<byte>, out: string, done: string, cols: string, offset: nat, k: nat) {
    offset + k <= |d| && k < 16 &&
    var c := Chunk(d[offset..]);
    && done + Rows(d[offset..], offset) == Rows(d, 0)
    && out == (if k == 0 then done else done + Head(offset) + cols)
    && (k == 0 ==> cols == "")
    && cols + Columns(c, k) == Columns(c, 0)
  }

  function Opened(out: string, offset: nat, k: nat): string {
    if k == 0 then out + Head(offset) else out
  }

  lemma AtFirstByte(d: seq<byte>)
    ensures AtByte(d, "", "", "", 0, 0)
  {
    hide Rows, Columns;
    assert d[0..] == d;
    assert "" + Rows(d, 0) == Rows(d, 0);
    assert "" + Columns(Chunk(d), 0) == Columns(Chunk(d), 0);
  }

  lemma ByteDone(d: seq<byte>, out: string, done: string, cols: string, offset: nat, k: nat)
    requires AtByte(d, out, done, cols, offset, k) && offset + k < |d|
    ensures var c := Chunk(d[offset..]);
      && Opened(out, offset, k) + Column(c, k) == done + Head(offset) + (cols + Column(c, k))
      && cols + Column(c, k) + Columns(c, k + 1) == Columns(c, 0)
  {
    hide Columns, Column, Head, Rows;
    var c := Chunk(d[offset..]);
    ColumnsStep(c, k);
    Assoc(cols, Column(c, k), Columns(c, k + 1));
    Assoc(done + Head(offset), cols, Column(c, k));
    assert k == 0 ==> done + Head(offset) + cols == done + Head(offset);
  }

  lemma NextByte(d: seq<byte>, out: string, done: string, cols: string, offset: nat, k: nat)
    requires AtByte(d, out, done, cols, offset, k) && offset + k < |d| && k < 15
    ensures var column := Column(Chunk(d[offset..]), k);
      AtByte(d, Opened(out, offset, k) + column, done, cols + column, offset, k + 1)
  {
    hide Columns, Column, Head, Rows;
    ByteDone(d, out, done, cols, offset, k);
  }

  lemma NextRow(d: seq<byte>, out: string, done: string, cols: string, offset: nat)
    requires AtByte(d, out, done, cols, offset, 15) && offset + 15 < |d|
    ensures var c := Chunk(d[offset..]);
      var row := out + Column(c, 15) + Tail(c);
      AtByte(d, row, row, "", offset + 16, 0)
  {
    hide Columns, Column, Head, Rows, Tail, Row;
    var c, rest := Chunk(d[offset..]), d[offset + 16..];
    ByteDone(d, out, done, cols, offset, 15);
    ColumnsStep(c, 0);
    assert cols + Column(c, 15) + "" == cols + Column(c, 15);
    RowDone(done, c, offset);
    RowsStep(d[offset..], offset);
    assert d[offset..][16..] == rest;
    Assoc(done, Row(c, offset), Rows(rest, offset + 16));
    assert "" + Columns(Chunk(rest), 0) == Columns(Chunk(rest), 0);
  }

  lemma LastRow(d: seq<byte>, out: string, done: string, cols: string, offset: nat, k: nat)
    requires AtByte(d, out, done, cols, offset, k) && offset + k == |d|
    ensures k == 0 ==> out == Rows(d, 0)
    ensures k > 0 ==> out + Columns(d[offset..], k) + Tail(d[offset..]) == Rows(d, 0)
  {
    hide Columns, Head, Tail, Row, Rows;
    var c := d[offset..];
    RowsStep(c, offset);
    if k == 0 {
      assert c == [] && done + "" == done;
    } else {
      assert Chunk(c) == c && c[|c|..] == [];
      RowsStep([], offset + 16);
      assert Row(c, offset) + "" == Row(c, offset);
      Assoc(done + Head(offset), cols, Columns(c, k));
      RowDone(done, c, offset);
    }
  }

  /** The loop over the bytes, one at a time, and the separate code for the last row. */
  method PrintBytes(d: seq<byte>) returns (out: string)
    ensures out == Rows(d, 0)
  {
    hide AtByte, Columns, Column, Head, Tail, Rows;
    out := "";
    var byteCount16, offset: nat, pHex, pASCII := 0, 0, 0, 0;
    ghost var done, cols, rows := "", "", 0;
    AtFirstByte(d);
    for byteCount := 0 to |d|
      invariant 0 <= byteCount16 < 16 && offset == 16 * rows
      invariant pHex == byteCount == offset + byteCount16 && pASCII == offset
      invariant AtByte(d, out, done, cols, offset, byteCount16)
    {
      ghost var c := Chunk(d[offset..]);
      assert c[byteCount16] == d[pHex];
      if byteCount16 < 15 {
        NextByte(d, out, done, cols, offset, byteCount16);
      } else {
        NextRow(d, out, done, cols, offset);
        assert d[offset..offset + 16] == c;
      }
      if byteCount % 16 == 0 {
        out := PrintOffset(offset, out);
      }
      out := PrintByte(d[pHex], byteCount16, c, out);
      cols := cols + Column(c, byteCount16);
      pHex := pHex + 1;
      byteCount16 := byteCount16 + 1;
      if byteCount16 == 16 {
        out, pASCII := PrintAscii(d, pASCII, 16, out);
        offset := offset + 16;
        byteCount16 := 0;
        done, cols, rows := out, "", rows + 1;
      }
    }
    LastRow(d, out, done, cols, offset, byteCount16);
    if |d| % 16 != 0 {
      assert d[offset..offset + |d| % 16] == d[offset..];
      out := PrintPadding(|d| % 16, d[offset..], out);
      out, pASCII := PrintAscii(d, pASCII, |d| % 16, out);
    }
  }

  /** printEditCtrlPacketBytes: the text is set only for a packet that is not empty. */
  method PrintEditCtrlPacketBytes(pkt: Packet) returns (r: int, text: Option<string>)
    requires pkt.Valid()
    ensures pkt.IsEmpty() ==> r == -1 && text == None
    ensures !pkt.IsEmpty() ==> r == 0 && text == Some(Rows(pkt.Frame(), 0))
  {
    if pkt.IsEmpty() {
      return -1, None;
    }
    var out := PrintBytes(pkt.pkt_data[..pkt.header.value.caplen]);
    return 0, Some(out);
  }

  // ---------------------------------------------------------------- layout

  lemma HexUpLength(n: nat)
    ensures 1 <= |HexUp(n)|
    ensures |HexUp(n)| <= 4 <==> n < 65536
  {
    var n1, n2, n3, n4 := n / 16, n / 256, n / 4096, n / 65536;
    assert n1 / 16 == n2 && n2 / 16 == n3 && n3 / 16 == n4;
    assert n >= 16 ==> |HexUp(n)| == 1 + |HexUp(n1)|;
    assert n1 >= 16 ==> |HexUp(n1)| == 1 + |HexUp(n2)|;
    assert n2 >= 16 ==> |HexUp(n2)| == 1 + |HexUp(n3)|;
    assert n3 >= 16 ==> |HexUp(n3)| == 1 + |HexUp(n4)|;
    HexUpNotEmpty(n4);
  }

  lemma {:induction false} HexUpNotEmpty(n: nat)
    ensures |HexUp(n)| >= 1
  {
  }

  lemma Hex4Length(n: nat)
    ensures |Hex4(n)| >= 4
    ensures |Hex4(n)| == 4 <==> n < 65536
  {
    HexUpLength(n);
  }

  function Tabs(s: string): nat {
    multiset(s)['\t']
  }

  lemma TabsConcat(a: string, b: string)
    ensures Tabs(a + b) == Tabs(a) + Tabs(b)
    ensures '\t' !in a ==> Tabs(a) == 0
  {
  }

  lemma TakeDrop(a: string, b: string)
    ensures (a + b)[..|a|] == a && (a + b)[|a|..] == b
  {
  }

  lemma {:induction false} ColumnsLayout(c: seq<byte>, i: nat)
    requires i <= 16
    ensures |Columns(c, i)| == 3 * (16 - i) + if i <= 7 then 1 else 0
    ensures Tabs(Columns(c, i)) == if i <= 7 then 1 else 0
    ensures '\n' !in Columns(c, i)
    decreases 16 - i
  {
    hide Columns, Column, Tabs;
    if i == 16 {
      ColumnsStep(c, 0);
      TabsConcat("", "");
    } else {
      ColumnsStep(c, i);
      ColumnsLayout(c, i + 1);
      ColumnLayout(c, i);
      TabsConcat(Column(c, i), Columns(c, i + 1));
    }
  }

  lemma ColumnLayout(c: seq<byte>, i: nat)
    ensures |Column(c, i)| == if i == 7 then 4 else 3
    ensures Tabs(Column(c, i)) == if i == 7 then 1 else 0
    ensures '\n' !in Column(c, i)
  {
    hide Tabs;
    var cell := Cell(c, i);
    assert cell[0] != '\t' && cell[1] != '\t' && cell[2] != '\t';
    TabsConcat(cell, "\t");
    if i == 7 {
      OneTab();
    } else {
      assert Column(c, i) == cell;
    }
  }

  lemma OneTab()
    ensures Tabs("\t") == 1
  {
  }

  /** Every row, the padded last one included, carries exactly one tab; its ASCII column starts at
      index 56 exactly for offsets of four digits. */
  lemma RowLayoutIff(c: seq<byte>, off: nat)
    requires |c| <= 16
    ensures Tabs(Row(c, off)) == 1
    ensures |Row(c, off)| == 54 + |Hex4(off)| + |c|
    ensures Row(c, off)[52 + |Hex4(off)|..] == Ascii(c) + "\r\n"
    ensures 52 + |Hex4(off)| == 56 <==> off < 65536
  {
    hide Tabs, Columns, Hex4;
    Hex4Length(off);
    ColumnsLayout(c, 0);
    var h, cols, t := Head(off), Columns(c, 0), Ascii(c) + "\r\n";
    assert Tail(c) == " " + t;
    TabsConcat(h, cols);
    TabsConcat(h + cols, " " + t);
    TabsConcat(" " + t, "");
    Assoc(h + cols, " ", t);
    TakeDrop(h + cols + " ", t);
    assert |h + cols + " "| == 52 + |Hex4(off)|;
  }

  /** The length of the whole text, for packets whose offsets all have four digits. */
  lemma {:induction false} DumpLength(d: seq<byte>, off: nat)
    requires off + |d| <= 65536
    ensures |Rows(d, off)| == 74 * (|d| / 16) + if |d| % 16 == 0 then 0 else 58 + |d| % 16
    decreases |d|
  {
    hide Row, Rows, Hex4;
    RowsStep(d, off);
    if d != [] {
      var c, rest := Chunk(d), d[|Chunk(d)|..];
      RowLayoutIff(c, off);
      RowsStep(rest, off + 16);
      if rest != [] {
        DumpLength(rest, off + 16);
        assert |rest| / 16 == |d| / 16 - 1 && |rest| % 16 == |d| % 16;
      }
    }
  }

  // ---------------------------------------------------------------- character by character

  /** The upper-case hexadecimal digit of `n`. */
  function Digit(n: nat): char
    requires n < 16
  {
    "0123456789ABCDEF"[n]
  }

  /** Where column `i` starts within the columns: three characters each, and the tab after the eighth. */
  function Place(i: nat): nat {
    3 * i + if i >= 8 then 1 else 0
  }

  lemma {:induction false} ColumnsAt(c: seq<byte>, i: nat, j: nat, x: nat)
    requires i <= j < 16 && x < 3
    ensures Place(j) - Place(i) + x < |Columns(c, i)| && Columns(c, i)[Place(j) - Place(i) + x] == Cell(c, j)[x]
    decreases j - i
  {
    hide Columns, Cell;
    ColumnsStep(c, i);
    ColumnLayout(c, i);
    if i < j {
      ColumnsAt(c, i + 1, j, x);
    }
  }

  lemma {:induction false} TabAt(c: seq<byte>, i: nat)
    requires i <= 7
    ensures 24 - 3 * i < |Columns(c, i)| && Columns(c, i)[24 - 3 * i] == '\t'
    decreases 7 - i
  {
    hide Columns, Cell;
    ColumnsStep(c, i);
    ColumnLayout(c, i);
    if i < 7 {
      TabAt(c, i + 1);
    }
  }

  lemma CellIs(c: seq<byte>, i: nat)
    ensures i < |c| ==> Cell(c, i)[0] == Digit(c[i] / 16) && Cell(c, i)[1] == Digit(c[i] % 16)
    ensures i >= |c| ==> Cell(c, i)[0] == Cell(c, i)[1] == ' '
    ensures Cell(c, i)[2] == ' '
  {
  }

  lemma HeadIs(off: nat)
    requires off < 65536
    ensures |Head(off)| == 6 && Head(off)[4] == ':' && Head(off)[5] == ' '
    ensures Head(off)[0] == Digit(off / 4096) && Head(off)[1] == Digit(off / 256 % 16)
    ensures Head(off)[2] == Digit(off / 16 % 16) && Head(off)[3] == Digit(off % 16)
  {
    hide Digit, HexDigit;
    FourDigits(off);
    assert |Hex4(off)| == 4;
  }

  lemma DigitIs(n: nat)
    requires n < 16
    ensures HexDigit(n) == Digit(n)
  {
  }

  lemma FourDigits(off: nat)
    requires off < 65536
    ensures Hex4(off) == [Digit(off / 4096), Digit(off / 256 % 16), Digit(off / 16 % 16), Digit(off % 16)]
  {
    hide Digit, HexDigit;
    var a, b, c, e := off / 4096, off / 256 % 16, off / 16 % 16, off % 16;
    assert off / 16 / 16 == off / 256 && off / 256 / 16 == a;
    DigitIs(a);
    DigitIs(b);
    DigitIs(c);
    DigitIs(e);
    DigitIs(0);
    HexUpStep(off);
    HexUpStep(off / 16);
    HexUpStep(off / 256);
    HexUpStep(a);
    ZeroDigit();
  }

  lemma ZeroDigit()
    ensures HexDigit(0) == '0'
  {
  }

  lemma HexUpStep(n: nat)
    ensures HexUp(n) == if n < 16 then [HexDigit(n)] else HexUp(n / 16) + [HexDigit(n % 16)]
  {
  }

  /** A letter or a digit as itself, anything else as a dot. */
  function Visible(b: byte): char {
    if 48 <= b <= 57 || 65 <= b <= 90 || 97 <= b <= 122 then b as char else '.'
  }

  lemma InFirst(a: string, b: string, c: string, k: nat)
    requires k < |a|
    ensures k < |a + b + c| && (a + b + c)[k] == a[k]
  {
  }

  lemma InSecond(a: string, b: string, c: string, k: nat)
    requires k < |b|
    ensures |a| + k < |a + b + c| && (a + b + c)[|a| + k] == b[k]
  {
  }

  lemma InThird(a: string, b: string, c: string, k: nat)
    requires k <= |c|
    ensures |a| + |b| + k <= |a + b + c| && (a + b + c)[|a| + |b| + k..] == c[k..]
    ensures k < |c| ==> (a + b + c)[|a| + |b| + k] == c[k]
  {
  }

  /** The fixed parts of a row at an offset below 65536: four digits of the offset, a colon and a blank; a tab after
      the eighth place and a blank after the sixteenth; CR and LF. */
  lemma RowFrame(c: seq<byte>, off: nat)
    requires |c| <= 16 && off < 65536
    ensures var row := Row(c, off);
      && |row| == 58 + |c| && row[56 + |c|..] == "\r\n"
      && row[0] == Digit(off / 4096) && row[1] == Digit(off / 256 % 16)
      && row[2] == Digit(off / 16 % 16) && row[3] == Digit(off % 16)
      && row[4] == ':' && row[5] == ' ' && row[30] == '\t' && row[55] == ' '
  {
    hide Columns, Head, Tail, Digit;
    var h, cols, t := Head(off), Columns(c, 0), Tail(c);
    HeadIs(off);
    ColumnsLayout(c, 0);
    TabAt(c, 0);
    TailIs(c);
    InFirst(h, cols, t, 0);
    InFirst(h, cols, t, 1);
    InFirst(h, cols, t, 2);
    InFirst(h, cols, t, 3);
    InFirst(h, cols, t, 4);
    InFirst(h, cols, t, 5);
    InSecond(h, cols, t, 24);
    InThird(h, cols, t, 0);
    InThird(h, cols, t, 1 + |c|);
  }

  lemma TailIs(c: seq<byte>)
    ensures |Tail(c)| == 3 + |c| && Tail(c)[0] == ' ' && Tail(c)[1 + |c|..] == "\r\n"
  {
  }

  lemma TailAt(c: seq<byte>, i: nat)
    requires i < |c|
    ensures Tail(c)[1 + i] == Visible(c[i])
  {
  }

  /** Place `i` of a row: two digits and a blank for a byte, three blanks without one. */
  lemma RowCell(c: seq<byte>, off: nat, i: nat)
    requires |c| <= 16 && off < 65536 && i < 16
    ensures var row, q := Row(c, off), 6 + 3 * i + if i >= 8 then 1 else 0;
      && q + 2 < |row| && row[q + 2] == ' '
      && (i < |c| ==> row[q] == Digit(c[i] / 16) && row[q + 1] == Digit(c[i] % 16))
      && (i >= |c| ==> row[q] == row[q + 1] == ' ')
  {
    hide Columns, Head, Tail, Cell, Digit;
    var h, cols, t := Head(off), Columns(c, 0), Tail(c);
    HeadIs(off);
    ColumnsAt(c, 0, i, 0);
    ColumnsAt(c, 0, i, 1);
    ColumnsAt(c, 0, i, 2);
    CellIs(c, i);
    InSecond(h, cols, t, Place(i));
    InSecond(h, cols, t, Place(i) + 1);
    InSecond(h, cols, t, Place(i) + 2);
  }

  /** Byte `i` of a row in its ASCII column: a letter or a digit as itself, anything else as a dot. */
  lemma RowAscii(c: seq<byte>, off: nat, i: nat)
    requires i < |c| <= 16 && off < 65536
    ensures 56 + i < |Row(c, off)|
    ensures Row(c, off)[56 + i] ==
      if 48 <= c[i] <= 57 || 65 <= c[i] <= 90 || 97 <= c[i] <= 122 then c[i] as char else '.'
  {
    hide Columns, Head, Tail;
    HeadIs(off);
    ColumnsLayout(c, 0);
    TailIs(c);
    TailAt(c, i);
    InThird(Head(off), Columns(c, 0), Tail(c), 1 + i);
  }

  /** Row `k` of the text: it starts at character 74 * k and shows the bytes from 16 * k on at that offset. */
  lemma {:induction false} RowAt(d: seq<byte>, off: nat, k: nat)
    requires off + |d| <= 65536 && 16 * k < |d|
    ensures var c, text := Chunk(d[16 * k..]), Rows(d, off);
      && 74 * k + 58 + |c| <= |text| && text[74 * k..74 * k + 58 + |c|] == Row(c, off + 16 * k)
    decreases k
  {
    hide Row, Rows, Digit;
    var c := Chunk(d);
    RowsStep(d, off);
    RowFrame(c, off);
    if k == 0 {
      assert d[0..] == d;
    } else {
      var rest := d[16..];
      RowAt(rest, off + 16, k - 1);
      assert rest[16 * (k - 1)..] == d[16 * k..];
      Shifted(Row(c, off), Rows(rest, off + 16), 74 * (k - 1), 74 * (k - 1) + 58 + |Chunk(d[16 * k..])|);
    }
  }

  lemma Shifted(a: string, b: string, i: nat, j: nat)
    requires i <= j <= |b|
    ensures (a + b)[|a| + i..|a| + j] == b[i..j]
  {
  }

  lemma Within(text: string, r: nat, row: string, x: nat)
    requires r + |row| <= |text| && text[r..r + |row|] == row && x < |row|
    ensures r + x < |text| && text[r + x] == row[x]
  {
  }

  /** Byte `n` of a packet, wherever it is: its two digits and its ASCII character stand in row n / 16 at place
      n mod 16. */
  lemma ByteShown(d: seq<byte>, n: nat)
    requires n < |d| <= 65536
    ensures var text, r, i := Rows(d, 0), 74 * (n / 16), n % 16;
      var q := r + 6 + 3 * i + if i >= 8 then 1 else 0;
      && r + 56 + i < |text| && q + 1 < |text|
      && text[q] == Digit(d[n] / 16) && text[q + 1] == Digit(d[n] % 16) && text[r + 56 + i] == Visible(d[n])
  {
    hide Row, Rows, Digit, Chunk, Visible;
    var k := n / 16;
    ChunkAt(d, n);
    RowAt(d, 0, k);
    RowFrame(Chunk(d[16 * k..]), 16 * k);
    ByteInRow(Rows(d, 0), 74 * k, Chunk(d[16 * k..]), 16 * k, n % 16);
  }

  lemma ByteInRow(text: string, r: nat, c: seq<byte>, off: nat, i: nat)
    requires i < |c| <= 16 && off < 65536
    requires r + |Row(c, off)| <= |text| && text[r..r + |Row(c, off)|] == Row(c, off)
    ensures var q := r + 6 + 3 * i + if i >= 8 then 1 else 0;
      && r + 56 + i < |text| && q + 1 < |text|
      && text[q] == Digit(c[i] / 16) && text[q + 1] == Digit(c[i] % 16) && text[r + 56 + i] == Visible(c[i])
  {
    hide Row, Digit;
    var row, q := Row(c, off), 6 + 3 * i + if i >= 8 then 1 else 0;
    RowCell(c, off, i);
    RowAscii(c, off, i);
    Within(text, r, row, q);
    Within(text, r, row, q + 1);
    Within(text, r, row, 56 + i);
  }

  lemma ChunkAt(d: seq<byte>, n: nat)
    requires n < |d|
    ensures n % 16 < |Chunk(d[16 * (n / 16)..])| <= 16 && Chunk(d[16 * (n / 16)..])[n % 16] == d[n]
  {
  }

  // ---------------------------------------------------------------- reading it back

  function Find(text: string, ch: char): (i: nat)
    requires ch in text
    ensures i < |text| && text[i] == ch && forall k :: 0 <= k < i ==> text[k] != ch
  {
    if text[0] == ch then 0 else 1 + Find(text[1..], ch)
  }

  function HexValue(ch: char): nat {
    if '0' <= ch <= '9' then ch as int - 48 else if 'A' <= ch <= 'F' then ch as int - 55 else 0
  }

  /** The bytes in the columns from `i` on; a blank column ends the row. */
  function ReadColumns(text: string, i: nat): seq<byte>
    decreases 16 - i, text
  {
    if i >= 16 || |text| < 4 || text[0] == ' ' then []
    else
      var b: byte := (HexValue(text[0]) * 16 + HexValue(text[1])) % 256;
      [b] + ReadColumns(text[if i == 7 then 4 else 3..], i + 1)
  }

  /** The hex columns of a line start behind the first blank. */
  function ReadRow(line: string): seq<byte> {
    if ' ' !in line then [] else ReadColumns(line[Find(line, ' ') + 1..], 0)
  }

  /** A reader that knows only lines and columns. */
  function ReadDump(text: string): seq<byte> {
    if '\n' !in text then []
    else ReadRow(text[..Find(text, '\n')]) + ReadDump(text[Find(text, '\n') + 1..])
  }

  lemma HexDigitRead(n: nat)
    requires n < 16
    ensures HexValue(HexDigit(n)) == n
  {
  }

  lemma {:induction false} FindAfter(a: string, ch: char, b: string)
    requires ch !in a
    ensures ch in a + [ch] + b && Find(a + [ch] + b, ch) == |a|
  {
    var text := a + [ch] + b;
    assert text[|a|] == ch;
    assert forall k :: 0 <= k < |a| ==> text[k] == a[k];
  }

  lemma HexRead(b: byte)
    ensures HexDigit(b / 16) != ' '
    ensures (HexValue(Hex2(b)[0]) * 16 + HexValue(Hex2(b)[1])) % 256 == b
  {
    hide HexDigit, HexValue;
    HexDigitRead(b / 16);
    HexDigitRead(b % 16);
  }

  lemma ReadColumnsStep(text: string, i: nat, more: string)
    requires i < 16 && |text| >= 4 && text[if i == 7 then 4 else 3..] == more
    ensures text[0] == ' ' ==> ReadColumns(text, i) == []
    ensures text[0] != ' ' ==>
      ReadColumns(text, i) == [(HexValue(text[0]) * 16 + HexValue(text[1])) % 256] + ReadColumns(more, i + 1)
  {
    hide HexValue;
  }

  lemma ReadNothing(text: string, i: nat)
    requires i >= 16
    ensures ReadColumns(text, i) == []
  {
  }

  lemma CellReadBack(c: seq<byte>, i: nat, more: string)
    requires i < 16 && more != ""
    ensures ReadColumns(Column(c, i) + more, i) == if i < |c| then [c[i]] + ReadColumns(more, i + 1) else []
  {
    hide HexValue, HexDigit, IsAlnum, ReadColumns;
    var text, column := Column(c, i) + more, Column(c, i);
    ColumnLayout(c, i);
    TakeDrop(column, more);
    assert text[0] == column[0] == Cell(c, i)[0] && text[1] == column[1] == Cell(c, i)[1];
    ReadColumnsStep(text, i, more);
    if i < |c| {
      HexRead(c[i]);
    }
  }

  lemma {:induction false} ColumnsReadBack(c: seq<byte>, i: nat, rest: string)
    requires |c| <= 16 && i <= |c| && rest != ""
    ensures ReadColumns(Columns(c, i) + rest, i) == c[i..]
    decreases 16 - i
  {
    hide Columns, Column, ReadColumns;
    if i == 16 {
      ReadNothing(Columns(c, i) + rest, i);
    } else {
      ColumnsStep(c, i);
      Assoc(Column(c, i), Columns(c, i + 1), rest);
      CellReadBack(c, i, Columns(c, i + 1) + rest);
      if i < |c| {
        ColumnsReadBack(c, i + 1, rest);
        assert c[i..] == [c[i]] + c[i + 1..];
      }
    }
  }

  lemma RowReadBack(c: seq<byte>, off: nat)
    requires |c| <= 16
    ensures Row(c, off) != "" && Row(c, off)[|Row(c, off)| - 1] == '\n'
    ensures '\n' !in Row(c, off)[..|Row(c, off)| - 1]
    ensures ReadRow(Row(c, off)[..|Row(c, off)| - 1]) == c
  {
    hide Columns, Hex4;
    ColumnsLayout(c, 0);
    var a, cols, t := Hex4(off) + ":", Columns(c, 0), " " + Ascii(c) + "\r";
    var line := a + [' '] + (cols + t);
    assert Tail(c) == t + ['\n'];
    assert Head(off) == a + [' '];
    assert Row(c, off) == line + ['\n'];
    assert '\n' !in a && '\n' !in t && '\n' !in line;
    FindAfter(a, ' ', cols + t);
    assert line[|a| + 1..] == cols + t;
    ColumnsReadBack(c, 0, t);
  }

  /** The number that hexadecimal digits write. */
  function ReadHex(s: string): nat {
    if s == "" then 0 else 16 * ReadHex(s[..|s| - 1]) + HexValue(s[|s| - 1])
  }

  /** The digits in front of a row, four or more, are the offset. */
  lemma OffsetReadBack(c: seq<byte>, off: nat)
    ensures |Head(off)| >= 2 && ReadHex(Head(off)[..|Head(off)| - 2]) == off && Head(off) <= Row(c, off)
  {
    hide Columns;
    HexUpReadBack(off);
    ZerosReadBack(if |HexUp(off)| < 4 then 4 - |HexUp(off)| else 0, HexUp(off));
    var n := if |HexUp(off)| < 4 then 4 - |HexUp(off)| else 0;
    assert Hex4(off) == seq(n, _ => '0') + HexUp(off);
    assert Head(off)[..|Head(off)| - 2] == Hex4(off);
  }

  lemma {:induction false} HexUpReadBack(n: nat)
    ensures ReadHex(HexUp(n)) == n
  {
    hide HexDigit, HexValue;
    HexUpStep(n);
    HexDigitRead(n % 16);
    if n < 16 {
      assert [HexDigit(n)][..0] == "";
    } else {
      HexUpReadBack(n / 16);
      assert (HexUp(n / 16) + [HexDigit(n % 16)])[..|HexUp(n / 16)|] == HexUp(n / 16);
    }
  }

  lemma {:induction false} ZerosReadBack(n: nat, s: string)
    ensures ReadHex(seq(n, _ => '0') + s) == ReadHex(s)
    decreases |s|, n
  {
    var zeros := seq(n, _ => '0');
    if s != "" {
      ZerosReadBack(n, s[..|s| - 1]);
      assert (zeros + s)[..|zeros + s| - 1] == zeros + s[..|s| - 1];
    } else if n > 0 {
      ZerosReadBack(n - 1, "");
      assert (zeros + s)[..n - 1] == seq(n - 1, _ => '0') + "";
    }
  }

  /** Reading the printed text gives back the packet, whatever its length. */
  lemma {:induction false} DumpReadBack(d: seq<byte>, off: nat)
    ensures ReadDump(Rows(d, off)) == d
    decreases |d|
  {
    hide Row, Rows, ReadRow, ReadDump, Chunk;
    RowsStep(d, off);
    if d == [] {
      NothingRead();
    } else {
      var c, rest := Chunk(d), d[|Chunk(d)|..];
      DumpReadBack(rest, off + 16);
      RowThenMore(c, off, Rows(rest, off + 16));
      assert d == c + rest;
    }
  }

  lemma NothingRead()
    ensures ReadDump("") == []
  {
  }

  lemma RowThenMore(c: seq<byte>, off: nat, more: string)
    requires |c| <= 16
    ensures ReadDump(Row(c, off) + more) == c + ReadDump(more)
  {
    hide Row, ReadRow, ReadDump;
    var row := Row(c, off);
    RowReadBack(c, off);
    assert row == row[..|row| - 1] + ['\n'];
    LineReadBack(row[..|row| - 1], more);
  }

  lemma LineReadBack(line: string, more: string)
    requires '\n' !in line
    ensures ReadDump(line + ['\n'] + more) == ReadRow(line) + ReadDump(more)
  {
    hide ReadRow;
    FindAfter(line, '\n', more);
    TakeDrop(line + ['\n'], more);
    assert (line + ['\n'] + more)[..|line|] == line;
  }
}
