/** The hex dump of spec.c: a head line, then sixteen bytes a line, first as numbers and
    then as characters.  The dump is written to a log buffer, which may be full before
    the dump is done. */
module HexDumps {
  import opened Common
  import opened Digits
  import opened Buffers

  type byte = n: nat | n < 256

  const HEAD := "\n             0  1  2  3  4  5  6  7  8  9  A  B  C  D  E  F    0123456789ABCDEF"
  const NO_BUFFER := "buf=(null)"

  // ---------------------------------------------------------------- the text of a dump

  function HexPair(n: byte): string { [DigitChar(n / 16), DigitChar(n % 16)] }

  function HexCell(bytes: seq<byte>, i: nat): string {
    if i < |bytes| then HexPair(bytes[i]) + " " else "   "
  }

  function CharCell(bytes: seq<byte>, i: nat): string {
    if i >= |bytes| then " " else if 32 <= bytes[i] <= 126 then [bytes[i] as char] else "."
  }

  /** The cells of bytes lo to hi - 1. */
  function HexCells(bytes: seq<byte>, lo: nat, hi: nat): string {
    if hi <= lo then "" else HexCells(bytes, lo, hi - 1) + HexCell(bytes, hi - 1)
  }

  function CharCells(bytes: seq<byte>, lo: nat, hi: nat): string {
    if hi <= lo then "" else CharCells(bytes, lo, hi - 1) + CharCell(bytes, hi - 1)
  }

  function LineHead(line: nat): string {
    "\n" + Padded(line + 1, Dec, 10) + "   "
  }

  function Line(bytes: seq<byte>, line: nat): string {
    LineHead(line) + HexCells(bytes, line * 16, line * 16 + 16) + "  " + CharCells(bytes, line * 16, line * 16 + 16)
  }

  /** The first `n` lines. */
  function Lines(bytes: seq<byte>, n: nat): string {
    if n == 0 then "" else Lines(bytes, n - 1) + Line(bytes, n - 1)
  }

  /** max(1, ceil(len / 16)) */
  function LineCount(len: nat): nat {
    if len == 0 then 1 else (len + 15) / 16
  }

  function AllLines(bytes: seq<byte>): string { Lines(bytes, LineCount(|bytes|)) }

  function Dump(buf: Option<seq<byte>>): string {
    match buf
    case None => NO_BUFFER
    case Some(bytes) => HEAD + AllLines(bytes)
  }

  // ---------------------------------------------------------------- writing it

  lemma {:induction false} CellsPrefix(bytes: seq<byte>, lo: nat, n: nat, m: nat)
    requires n <= m
    ensures HexCells(bytes, lo, n) <= HexCells(bytes, lo, m)
    ensures CharCells(bytes, lo, n) <= CharCells(bytes, lo, m)
  {
    hide HexCell;
    hide CharCell;
    if n < m { CellsPrefix(bytes, lo, n, m - 1); }
  }

  lemma {:induction false} LinesPrefix(bytes: seq<byte>, n: nat, m: nat)
    requires n <= m
    ensures Lines(bytes, n) <= Lines(bytes, m)
  {
    hide Line;
    if n < m { LinesPrefix(bytes, n, m - 1); }
  }

  lemma Assoc(a: string, b: string, c: string)
    ensures (a + b) + c == a + (b + c)
  {
  }

  lemma PrefixAppend(t: string, a: string, b: string)
    requires a <= b
    ensures t + a <= t + b
  {
  }

  /** A text that is written part by part: the next part, and that the whole is still ahead. */
  lemma NextPart(t: string, done: string, part: string, whole: string)
    requires done + part <= whole
    ensures (t + done) + part == t + (done + part) && t + (done + part) <= t + whole
    ensures t + "" == t
  {
  }

  lemma CellsStep(bytes: seq<byte>, lo: nat, n: nat)
    requires lo <= n
    ensures HexCells(bytes, lo, lo) == "" && CharCells(bytes, lo, lo) == ""
    ensures HexCells(bytes, lo, n + 1) == HexCells(bytes, lo, n) + HexCell(bytes, n)
    ensures CharCells(bytes, lo, n + 1) == CharCells(bytes, lo, n) + CharCell(bytes, n)
  {
    hide HexCell, CharCell;
  }

  /** What every writer of a part of the dump promises. */
  twostate predicate Wrote(b: Buffer, piece: string, rc: int)
    reads b, b.data
  {
    && b.Valid() && (b.data == old(b.data) || fresh(b.data))
    && b.text == old(b.text) + piece
    && (rc == 0 || (rc == 1 && Overflows(b.text, b.sizeMax)))
  }

  method WriteHexCell(b: Buffer, bytes: seq<byte>, i: nat) returns (rc: int)
    requires b.Valid()
    modifies b, b.data
    ensures Wrote(b, HexCell(bytes, i), rc)
  {
    if i < |bytes| {
      var c := bytes[i];
      HexByte(c);
      Assoc(b.text, HexPair(c), " ");
      ghost var goal := b.text + HexCell(bytes, i);
      rc := b.PrintfHex(c, 2);
      if rc != 0 { b.Abandon(goal); return; }
      rc := b.Append(" ");
    } else {
      rc := b.Append("   ");
    }
  }

  method WriteCharCell(b: Buffer, bytes: seq<byte>, i: nat) returns (rc: int)
    requires b.Valid()
    modifies b, b.data
    ensures Wrote(b, CharCell(bytes, i), rc)
  {
    if i < |bytes| {
      var c := bytes[i];
      if c >= 32 && c <= 126 {
        rc := b.Append([c as char]);
      } else {
        rc := b.Append(".");
      }
    } else {
      rc := b.Append(" ");
    }
  }

  lemma HexNext(t: string, bytes: seq<byte>, i: nat, j: nat)
    requires j < 16
    ensures t + HexCells(bytes, i, i) == t
    ensures (t + HexCells(bytes, i, i + j)) + HexCell(bytes, i + j) == t + HexCells(bytes, i, i + j + 1)
    ensures t + HexCells(bytes, i, i + j + 1) <= t + HexCells(bytes, i, i + 16)
  {
    hide HexCell, HexCells, CharCells;
    CellsStep(bytes, i, i + j);
    CellsPrefix(bytes, i, i + j + 1, i + 16);
    NextPart(t, HexCells(bytes, i, i + j), HexCell(bytes, i + j), HexCells(bytes, i, i + 16));
  }

  method WriteHexCells(b: Buffer, bytes: seq<byte>, i: nat) returns (rc: int)
    requires b.Valid()
    modifies b, b.data
    ensures Wrote(b, HexCells(bytes, i, i + 16), rc)
  {
    hide HexCell;
    hide HexCells;
    hide Render;
    ghost var t := b.text;
    HexNext(t, bytes, i, 0);
    for j := 0 to 16
      invariant b.Valid() && (b.data == old(b.data) || fresh(b.data))
      invariant b.text == t + HexCells(bytes, i, i + j)
    {
      HexNext(t, bytes, i, j);
      rc := WriteHexCell(b, bytes, i + j);
      if rc != 0 {
        b.Abandon(t + HexCells(bytes, i, i + 16));
        return;
      }
    }
    rc := 0;
  }

  lemma CharNext(t: string, bytes: seq<byte>, i: nat, j: nat)
    requires j < 16
    ensures t + CharCells(bytes, i, i) == t
    ensures (t + CharCells(bytes, i, i + j)) + CharCell(bytes, i + j) == t + CharCells(bytes, i, i + j + 1)
    ensures t + CharCells(bytes, i, i + j + 1) <= t + CharCells(bytes, i, i + 16)
  {
    hide CharCell, HexCells, CharCells;
    CellsStep(bytes, i, i + j);
    CellsPrefix(bytes, i, i + j + 1, i + 16);
    NextPart(t, CharCells(bytes, i, i + j), CharCell(bytes, i + j), CharCells(bytes, i, i + 16));
  }

  method WriteCharCells(b: Buffer, bytes: seq<byte>, i: nat) returns (rc: int)
    requires b.Valid()
    modifies b, b.data
    ensures Wrote(b, CharCells(bytes, i, i + 16), rc)
  {
    hide CharCell;
    hide CharCells;
    hide Render;
    ghost var t := b.text;
    CharNext(t, bytes, i, 0);
    for j := 0 to 16
      invariant b.Valid() && (b.data == old(b.data) || fresh(b.data))
      invariant b.text == t + CharCells(bytes, i, i + j)
    {
      CharNext(t, bytes, i, j);
      rc := WriteCharCell(b, bytes, i + j);
      if rc != 0 {
        b.Abandon(t + CharCells(bytes, i, i + 16));
        return;
      }
    }
    rc := 0;
  }

  method WriteLineHead(b: Buffer, line: nat) returns (rc: int)
    requires b.Valid() && line + 1 < 0x1_0000_0000_0000_0000
    modifies b, b.data
    ensures Wrote(b, LineHead(line), rc)
  {
    ghost var t, n := b.text, Padded(line + 1, Dec, 10);
    ghost var goal := t + LineHead(line);
    assert goal == t + "\n" + n + "   ";
    rc := b.Append("\n");
    if rc != 0 { b.Abandon(goal); return; }
    rc := b.PrintfDec64(line + 1, 10);
    if rc != 0 { b.Abandon(goal); return; }
    rc := b.Append("   ");
  }

  method WriteLine(b: Buffer, bytes: seq<byte>, line: nat) returns (rc: int)
    requires b.Valid() && line + 1 < 0x1_0000_0000_0000_0000
    modifies b, b.data
    ensures Wrote(b, Line(bytes, line), rc)
  {
    hide LineHead;
    hide HexCells;
    hide CharCells;
    hide Render;
    ghost var t, h := b.text, LineHead(line);
    ghost var x, c := HexCells(bytes, line * 16, line * 16 + 16), CharCells(bytes, line * 16, line * 16 + 16);
    ghost var goal := t + Line(bytes, line);
    assert goal == t + h + x + "  " + c;
    rc := WriteLineHead(b, line);
    if rc != 0 { b.Abandon(goal); return; }
    rc := WriteHexCells(b, bytes, line * 16);
    if rc != 0 { b.Abandon(goal); return; }
    rc := b.Append("  ");
    if rc != 0 { b.Abandon(goal); return; }
    rc := WriteCharCells(b, bytes, line * 16);
  }

  /** The dump of any bytes ends, and leaves the buffer as if the whole dump had been
      appended at once, also when it stops early because the buffer is full. */
  method WriteDump(b: Buffer, buf: Option<seq<byte>>) returns (rc: int)
    requires b.Valid()
    requires buf.Some? ==> |buf.value| < 0x8000_0000_0000_0000
    modifies b, b.data
    ensures Wrote(b, Dump(buf), rc)
    ensures b.Contents() == Render(old(b.text) + Dump(buf), b.sizeMax, b.marker)
  {
    if buf == None {
      rc := b.Append(NO_BUFFER);
      return;
    }
    ghost var goal := b.text + Dump(buf);
    Assoc(b.text, HEAD, AllLines(buf.value));
    rc := b.Append(HEAD);
    if rc != 0 { b.Abandon(goal); return; }
    rc := WriteLines(b, buf.value);
  }

  method WriteLines(b: Buffer, bytes: seq<byte>) returns (rc: int)
    requires b.Valid() && |bytes| < 0x8000_0000_0000_0000
    modifies b, b.data
    ensures Wrote(b, AllLines(bytes), rc)
  {
    hide Line;
    hide Render;
    ghost var t, n := b.text, LineCount(|bytes|);
    var line := 0;
    while true
      invariant line < n
      invariant b.Valid() && (b.data == old(b.data) || fresh(b.data))
      invariant b.text == t + Lines(bytes, line)
      decreases n - line
    {
      Assoc(t, Lines(bytes, line), Line(bytes, line));
      LinesPrefix(bytes, line + 1, n);
      rc := WriteLine(b, bytes, line);
      if rc != 0 {
        PrefixAppend(t, Lines(bytes, line + 1), AllLines(bytes));
        b.Abandon(t + AllLines(bytes));
        return;
      }
      if line * 16 + 16 >= |bytes| { break; }
      line := line + 1;
    }
  }

  // ---------------------------------------------------------------- reading it back

  /** The bytes in a row of hex cells: two digits and a blank each, up to the first blank cell. */
  function ReadCells(s: string): seq<nat>
    decreases |s|
  {
    if |s| < 3 || s[0] == ' ' then [] else [Value(s[..2], Hex)] + ReadCells(s[3..])
  }

  /** Reads the lines of a dump: a newline, a line number, three blanks, 48 characters of hex cells,
      two blanks, 16 characters. */
  function ReadLines(s: string): seq<nat>
    decreases |s|
  {
    if s == "" then []
    else
      var body := s[1 + DigitRun(s[1..])..];
      if |body| < 69 then [] else ReadCells(body[3..51]) + ReadLines(body[69..])
  }

  function ReadDump(s: string): seq<nat> {
    if |s| < |HEAD| then [] else ReadLines(s[|HEAD|..])
  }

  /** What a reader sees of one line: the digits of its number, the bytes, the characters. */
  datatype Record = Record(digits: string, bytes: seq<nat>, chars: string)

  function ReadRecords(s: string): seq<Record>
    decreases |s|
  {
    if s == "" then []
    else
      var n := DigitRun(s[1..]);
      var body := s[1 + n..];
      if |body| < 69 then [] else [Record(s[1..1 + n], ReadCells(body[3..51]), body[53..69])] + ReadRecords(body[69..])
  }

  /** What line `k` is to show: its number from 1 in ten digits or more, its bytes, and each of them again as a
      character if it is printable and as a dot if not, with blanks behind the last. */
  ghost predicate ShowsLine(r: Record, bytes: seq<byte>, k: nat)
    requires k < LineCount(|bytes|)
  {
    && |r.digits| >= 10 && (|r.digits| > 10 ==> r.digits[0] != '0')
    && (forall i :: 0 <= i < |r.digits| ==> IsDigit(r.digits[i])) && Value(r.digits, Dec) == k + 1
    && r.bytes == Shown(bytes, k)
    && |r.chars| == 16
    && forall j :: 0 <= j < 16 ==>
         r.chars[j] == if k * 16 + j >= |bytes| then ' '
                       else if 32 <= bytes[k * 16 + j] <= 126 then bytes[k * 16 + j] as char else '.'
  }

  lemma {:induction false} CharsAt(bytes: seq<byte>, lo: nat, hi: nat, j: nat)
    requires lo + j < hi
    ensures |CharCells(bytes, lo, hi)| == hi - lo
    ensures CharCells(bytes, lo, hi)[j] == if lo + j >= |bytes| then ' '
                                           else if 32 <= bytes[lo + j] <= 126 then bytes[lo + j] as char else '.'
  {
    hide HexCells, CharCells;
    CellsLength(bytes, lo, hi);
    CellsLength(bytes, lo, hi - 1);
    CellsStep(bytes, lo, hi - 1);
    if lo + j < hi - 1 {
      CharsAt(bytes, lo, hi - 1, j);
    }
  }

  lemma {:induction false} RecordParse(n: string, x: string, c: string, next: string)
    requires forall i :: 0 <= i < |n| ==> IsDigit(n[i])
    requires |x| == 48 && |c| == 16
    ensures ReadRecords(("\n" + n + "   ") + x + "  " + c + next) == [Record(n, ReadCells(x), c)] + ReadRecords(next)
  {
    hide ReadCells;
    var s := "\n" + n + "   " + x + "  " + c + next;
    var body := "   " + x + "  " + c + next;
    assert s[1..] == n + body;
    DigitRunOf(n, body);
    assert s[1 + |n|..] == body && s[1..1 + |n|] == n;
    assert body[3..51] == x && body[53..69] == c;
    assert body[69..] == next;
  }

  lemma RecordLine(bytes: seq<byte>, line: nat, rest: string) returns (r: Record)
    requires line < LineCount(|bytes|)
    ensures ReadRecords(Line(bytes, line) + rest) == [r] + ReadRecords(rest) && ShowsLine(r, bytes, line)
  {
    hide ReadRecords, ReadCells, Padded, HexCells, CharCells;
    var n := Padded(line + 1, Dec, 10);
    PaddedDenotes(line + 1, Dec, 10);
    CellsLength(bytes, line * 16, line * 16 + 16);
    var x, c := HexCells(bytes, line * 16, line * 16 + 16), CharCells(bytes, line * 16, line * 16 + 16);
    RecordParse(n, x, c, rest);
    CellsRoundTrip(bytes, line);
    r := Record(n, ReadCells(x), c);
    forall j | 0 <= j < 16
      ensures c[j] == if line * 16 + j >= |bytes| then ' '
                      else if 32 <= bytes[line * 16 + j] <= 126 then bytes[line * 16 + j] as char else '.'
    {
      CharsAt(bytes, line * 16, line * 16 + 16, j);
    }
  }

  /** A dump has one line for every sixteen bytes, and one for none; each shows what it is to show. */
  lemma {:induction false} RecordsOf(bytes: seq<byte>, n: nat, rest: string) returns (rs: seq<Record>)
    requires n <= LineCount(|bytes|)
    ensures ReadRecords(Lines(bytes, n) + rest) == rs + ReadRecords(rest) && |rs| == n
    ensures forall k :: 0 <= k < n ==> ShowsLine(rs[k], bytes, k)
  {
    hide Line, ReadRecords, ShowsLine;
    if n == 0 {
      assert Lines(bytes, n) + rest == rest;
      rs := [];
    } else {
      var line := n - 1;
      Assoc(Lines(bytes, line), Line(bytes, line), rest);
      var before := RecordsOf(bytes, line, Line(bytes, line) + rest);
      var r := RecordLine(bytes, line, rest);
      rs := before + [r];
    }
  }

  lemma DumpRecords(bytes: seq<byte>) returns (rs: seq<Record>)
    ensures |HEAD| <= |Dump(Some(bytes))| && ReadRecords(Dump(Some(bytes))[|HEAD|..]) == rs
    ensures |rs| == (if |bytes| == 0 then 1 else (|bytes| + 15) / 16)
    ensures |rs| == LineCount(|bytes|) && forall k :: 0 <= k < |rs| ==> ShowsLine(rs[k], bytes, k)
  {
    hide ShowsLine, Lines;
    rs := RecordsOf(bytes, LineCount(|bytes|), "");
    assert Dump(Some(bytes))[|HEAD|..] == Lines(bytes, LineCount(|bytes|)) + "";
  }

  lemma HexByte(n: byte)
    ensures Padded(n, Hex, 2) == HexPair(n)
    ensures Value(HexPair(n), Hex) == n && HexPair(n)[0] != ' '
  {
    hide Value;
    PairValue(n / 16, n % 16);
    TextDigit(n % 16);
    if n < 16 {
      assert Padded(n, Hex, 2) == ['0'] + Text(n, Hex);
    } else {
      TextDigit(n / 16);
      assert Text(n, Hex) == Text(n / 16, Hex) + [DigitChar(n % 16)];
    }
  }

  lemma TextDigit(d: nat)
    requires d < 16
    ensures Text(d, Hex) == [DigitChar(d)]
  {
  }

  lemma PairValue(a: nat, b: nat)
    requires a < 16 && b < 16
    ensures Value([DigitChar(a), DigitChar(b)], Hex) == 16 * a + b
  {
    ValueSnoc([], DigitChar(a), Hex);
    ValueSnoc([DigitChar(a)], DigitChar(b), Hex);
    assert [] + [DigitChar(a)] == [DigitChar(a)] && [DigitChar(a)] + [DigitChar(b)] == [DigitChar(a), DigitChar(b)];
  }

  lemma {:induction false} CellsLength(bytes: seq<byte>, lo: nat, hi: nat)
    requires lo <= hi
    ensures |HexCells(bytes, lo, hi)| == 3 * (hi - lo) && |CharCells(bytes, lo, hi)| == hi - lo
  {
    hide HexCells, CharCells, HexCell, CharCell;
    CellsStep(bytes, lo, lo);
    if lo < hi {
      CellsLength(bytes, lo, hi - 1);
      CellsStep(bytes, lo, hi - 1);
      CellLength(bytes, hi - 1);
    }
  }

  lemma CellLength(bytes: seq<byte>, i: nat)
    ensures |HexCell(bytes, i)| == 3 && |CharCell(bytes, i)| == 1
  {
  }

  lemma ReadCell(cell: string, n: byte, rest: string)
    requires cell == HexPair(n) + " "
    ensures ReadCells(cell + rest) == [n] + ReadCells(rest)
  {
    HexByte(n);
    assert (cell + rest)[..2] == HexPair(n) && (cell + rest)[3..] == rest;
  }

  lemma LastByte(bytes: seq<byte>, lo: nat, hi: nat, rest: seq<nat>)
    requires lo < hi <= |bytes|
    ensures bytes[lo..hi - 1] + ([bytes[hi - 1]] + rest) == bytes[lo..hi] + rest
  {
  }

  /** Cells that show bytes are read back, whatever follows them. */
  lemma {:induction false} ReadShown(bytes: seq<byte>, lo: nat, hi: nat, rest: string)
    requires lo <= hi <= |bytes|
    ensures ReadCells(HexCells(bytes, lo, hi) + rest) == bytes[lo..hi] + ReadCells(rest)
  {
    hide ReadCells, HexPair, HexCells, CharCells;
    CellsStep(bytes, lo, lo);
    if lo == hi {
      assert HexCells(bytes, lo, hi) + rest == rest;
    } else {
      var cell := HexCell(bytes, hi - 1);
      CellsStep(bytes, lo, hi - 1);
      Assoc(HexCells(bytes, lo, hi - 1), cell, rest);
      ReadShown(bytes, lo, hi - 1, cell + rest);
      ReadCell(cell, bytes[hi - 1], rest);
      LastByte(bytes, lo, hi, ReadCells(rest));
    }
  }

  /** Past the last byte the cells are blank. */
  lemma {:induction false} BlankTail(bytes: seq<byte>, lo: nat, shown: nat, hi: nat) returns (blanks: string)
    requires lo <= shown <= hi && (shown == hi || |bytes| == shown)
    ensures HexCells(bytes, lo, hi) == HexCells(bytes, lo, shown) + blanks
    ensures blanks == "" || blanks[0] == ' '
  {
    if shown == hi {
      blanks := "";
    } else {
      var before := BlankTail(bytes, lo, shown, hi - 1);
      blanks := before + "   ";
      Assoc(HexCells(bytes, lo, shown), before, "   ");
    }
  }

  lemma CellsRoundTrip(bytes: seq<byte>, line: nat)
    requires line < LineCount(|bytes|)
    ensures ReadCells(HexCells(bytes, line * 16, line * 16 + 16)) == Shown(bytes, line)
  {
    var shown := line * 16 + |Shown(bytes, line)|;
    var blanks := BlankTail(bytes, line * 16, shown, line * 16 + 16);
    ReadShown(bytes, line * 16, shown, blanks);
    assert Shown(bytes, line) + [] == Shown(bytes, line);
  }

  /** The bytes of one line. */
  ghost function Shown(bytes: seq<byte>, line: nat): seq<byte>
    requires line < LineCount(|bytes|)
  {
    bytes[line * 16..if line * 16 + 16 < |bytes| then line * 16 + 16 else |bytes|]
  }

  lemma {:induction false} LineParse(n: string, x: string, c: string, next: string)
    requires forall i :: 0 <= i < |n| ==> IsDigit(n[i])
    requires |x| == 48 && |c| == 16
    ensures ReadLines(("\n" + n + "   ") + x + "  " + c + next) == ReadCells(x) + ReadLines(next)
  {
    var s := "\n" + n + "   " + x + "  " + c + next;
    var body := "   " + x + "  " + c + next;
    assert s[1..] == n + body;
    DigitRunOf(n, body);
    assert s[1 + |n|..] == body;
    assert body[3..51] == x;
    assert body[69..] == next;
  }

  lemma LineRoundTrip(bytes: seq<byte>, line: nat, rest: string)
    requires line < LineCount(|bytes|)
    ensures ReadLines(Line(bytes, line) + rest) == Shown(bytes, line) + ReadLines(rest)
  {
    PaddedDenotes(line + 1, Dec, 10);
    CellsLength(bytes, line * 16, line * 16 + 16);
    var x, c := HexCells(bytes, line * 16, line * 16 + 16), CharCells(bytes, line * 16, line * 16 + 16);
    LineParse(Padded(line + 1, Dec, 10), x, c, rest);
    CellsRoundTrip(bytes, line);
  }

  lemma {:induction false} LinesRoundTrip(bytes: seq<byte>, n: nat, rest: string)
    requires n <= LineCount(|bytes|)
    ensures ReadLines(Lines(bytes, n) + rest) == bytes[..if n * 16 < |bytes| then n * 16 else |bytes|] + ReadLines(rest)
  {
    hide Line;
    hide ReadLines;
    if n == 0 {
      assert Lines(bytes, n) + rest == rest;
    } else {
      var line := n - 1;
      Assoc(Lines(bytes, line), Line(bytes, line), rest);
      LinesRoundTrip(bytes, line, Line(bytes, line) + rest);
      LineRoundTrip(bytes, line, rest);
      assert bytes[..if n * 16 < |bytes| then n * 16 else |bytes|] == bytes[..line * 16] + Shown(bytes, line);
    }
  }

  /** The hex columns of a dump can be read back to exactly the bytes dumped. */
  lemma DumpRoundTrip(bytes: seq<byte>)
    ensures ReadDump(Dump(Some(bytes))) == bytes
  {
    var n := LineCount(|bytes|);
    LinesRoundTrip(bytes, n, "");
    assert Dump(Some(bytes))[|HEAD|..] == Lines(bytes, n) + "";
    assert bytes[..|bytes|] + [] == bytes;
  }
}
