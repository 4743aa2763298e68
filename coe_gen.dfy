/** The NOP-fill generator (`scripts/coe_gen.py`): the text of a `.coe` file
    that fills the whole 64 KiB address space with the opcode `0F`, as a
    header followed by sixteen 4 KiB pages of 64 rows of 64 opcodes.
    The script's constants are gathered in a `Geometry` value so that its
    two sanity checks can be stated; `Default` holds the values the script
    has. Writing the file is left to the caller: the model gives the text
    written, or `None` when the script writes nothing. */
module CoeGen {
  import opened Wrappers
  import opened Strings
  import opened Numerals
  import Coe2Mif

  datatype Geometry = Geometry(
    highAddress: nat,   // HIGH_ADDRESS
    maxAddress: nat,    // MAX_ADDRESS
    pageSize: nat,      // PAGE_SIZE
    rowSize: nat,       // ROW_SIZE, rows per page
    colSize: nat)       // COL_SIZE, opcodes per row

  /** 2**16, 2**16, 2**12, 2**6, 2**6. */
  const Default := Geometry(65536, 65536, 4096, 64, 64)

  /** The opcode the file is filled with, `make_row`'s default argument. */
  const Opcode := "0F"

  /** `2**16 / 2**12` under Python 2 integer division: the page loop's bound
      is written out and does not follow the geometry. */
  const PageCount := 65536 / 4096

  /** Both checks at the top of `main`. */
  predicate GeometryOk(g: Geometry) {
    g.rowSize * g.colSize == g.pageSize && g.highAddress <= g.maxAddress
  }

  /** `make_row(opcode)`: `COL_SIZE` copies of `opcode` joined by spaces. */
  function MakeRow(g: Geometry, opcode: string): string {
    Join(" ", Repeat(opcode, g.colSize))
  }

  /** `make_page()`: `ROW_SIZE` default rows joined by newlines, with no
      newline after the last. */
  function MakePage(g: Geometry): string {
    Join("\n", Repeat(MakeRow(g, Opcode), g.rowSize))
  }

  const RadixLine := ";; memory_initialization_radix = 16;\n"
  const VectorLine := ";; memory_initialization_vector = \n"

  /** The five header strings as the script writes them, including the `.`
      after the page-size line's newline. */
  function Header(g: Geometry): string {
    ";; Distributed Memory Generator COE file\n"
    + ";; \tAddress Size = " + Decimal(g.highAddress) + "\n"
    + ";; \tPage Size = " + Decimal(g.pageSize) + "\n."
    + RadixLine
    + VectorLine
  }

  function PageStart(g: Geometry, n: nat): int { n * g.pageSize }
  function PageEnd(g: Geometry, n: nat): int { (n + 1) * g.pageSize - 1 }

  /** The comment line in front of page `n`. */
  function PageHeader(g: Geometry, n: nat): string {
    ";; Addresses from " + PyHex(PageStart(g, n)) + " to " + PyHex(PageEnd(g, n)) + ".\n"
  }

  /** What one turn of the page loop writes. */
  function PageBlock(g: Geometry, n: nat): string {
    PageHeader(g, n) + MakePage(g) + "\n"
  }

  /** Pages 0 to k - 1, in order. */
  function Pages(g: Geometry, k: nat): string {
    if k == 0 then "" else Pages(g, k - 1) + PageBlock(g, k - 1)
  }

  /** `main`: the text of `basic.coe`, or `None` when a check fails and
      the file is never opened. */
  function CoeFile(g: Geometry): (r: Option<string>)
    ensures r.None? <==> !GeometryOk(g)
    ensures r.Some? ==> StartsWith(r.value, Header(g))
  {
    if g.rowSize * g.colSize != g.pageSize then None
    else if g.highAddress > g.maxAddress then None
    else Some(Header(g) + Pages(g, PageCount))
  }

  // ---------------------------------------------------------------------
  // Rows and pages

  /** A row is `COL_SIZE` tokens, each the opcode, as the converter's
      whitespace split sees it. */
  lemma RowTokens(g: Geometry, opcode: string)
    requires IsWord(opcode)
    ensures Words(MakeRow(g, opcode)) == Repeat(opcode, g.colSize)
  {
    WordsOfJoin(' ', Repeat(opcode, g.colSize));
    AllWordsOfRepeatedWord(opcode, g.colSize);
  }

  lemma {:induction false} AllWordsOfRepeatedWord(w: string, n: nat)
    requires IsWord(w)
    ensures AllWords(Repeat(w, n)) == Repeat(w, n)
  {
    if n > 0 {
      assert Repeat(w, n)[1..] == Repeat(w, n - 1);
      WordsOfWord(w);
      AllWordsOfRepeatedWord(w, n - 1);
    }
  }

  lemma {:induction false} JoinRepeatLength(sep: string, x: string, n: nat)
    requires n >= 1
    ensures |Join(sep, Repeat(x, n))| == n * |x| + (n - 1) * |sep|
  {
    if n > 1 {
      assert Repeat(x, n)[1..] == Repeat(x, n - 1);
      JoinRepeatLength(sep, x, n - 1);
    }
  }

  /** Split on single spaces, a row gives back exactly `COL_SIZE` copies of
      the opcode: so it holds `COL_SIZE - 1` separators. */
  lemma RowShape(g: Geometry, opcode: string)
    requires g.colSize >= 1 && ' ' !in opcode
    ensures SplitOn(MakeRow(g, opcode), ' ') == Repeat(opcode, g.colSize)
    ensures |MakeRow(g, opcode)| == g.colSize * |opcode| + g.colSize - 1
  {
    SplitOnJoin(' ', Repeat(opcode, g.colSize));
    JoinRepeatLength(" ", opcode, g.colSize);
  }

  /** With no argument `make_row` fills with `0F`: the default row is
      64 `0F` tokens and 63 single spaces. */
  lemma DefaultRow()
    ensures SplitOn(MakeRow(Default, Opcode), ' ') == Repeat("0F", 64)
    ensures |MakeRow(Default, Opcode)| == 64 * 2 + 63
  {
    RowShape(Default, Opcode);
  }

  lemma {:induction false} JoinLastChar(sep: string, parts: seq<string>)
    requires |parts| >= 1 && |parts[|parts| - 1]| >= 1
    ensures var s := Join(sep, parts); |s| >= 1 && s[|s| - 1] == parts[|parts| - 1][|parts[|parts| - 1]| - 1]
  {
    if |parts| > 1 {
      JoinLastChar(sep, parts[1..]);
    }
  }

  /** A page is `ROW_SIZE` identical rows, with no newline after the last
      one. */
  lemma PageShape(g: Geometry)
    requires g.rowSize >= 1 && g.colSize >= 1
    ensures SplitOn(MakePage(g), '\n') == Repeat(MakeRow(g, Opcode), g.rowSize)
    ensures var p := MakePage(g); |p| >= 1 && p[|p| - 1] == 'F'
  {
    assert Opcode[1] == 'F';
    RowEnds(g, Opcode);
    RowsSplitBack(MakeRow(g, Opcode), g.rowSize);
    RowsJoinedEnd(MakeRow(g, Opcode), g.rowSize);
  }

  /** A row of an opcode without newline has no newline either, and ends in
      the opcode's last character. */
  lemma RowEnds(g: Geometry, opcode: string)
    requires g.colSize >= 1 && |opcode| >= 1 && ' ' !in opcode && '\n' !in opcode
    ensures var row := MakeRow(g, opcode);
      '\n' !in row && |row| >= 1 && row[|row| - 1] == opcode[|opcode| - 1]
  {
    var row := MakeRow(g, opcode);
    forall i | 0 <= i < |row| ensures row[i] != '\n' {
      JoinOfRepeatedHasOnly(" ", opcode, g.colSize, i);
    }
    JoinLastChar(" ", Repeat(opcode, g.colSize));
  }

  /** Rows without newlines, joined by newlines, split back into the rows. */
  lemma RowsSplitBack(row: string, n: nat)
    requires n >= 1 && '\n' !in row
    ensures SplitOn(Join("\n", Repeat(row, n)), '\n') == Repeat(row, n)
  {
    var parts := Repeat(row, n);
    assert forall i :: 0 <= i < |parts| ==> '\n' !in parts[i];
    assert "\n" == ['\n'];
    SplitOnJoin('\n', parts);
  }

  /** Rows joined by newlines end in the last row's last character. */
  lemma RowsJoinedEnd(row: string, n: nat)
    requires n >= 1 && |row| >= 1
    ensures var p := Join("\n", Repeat(row, n)); |p| >= 1 && p[|p| - 1] == row[|row| - 1]
  {
    var parts := Repeat(row, n);
    assert parts[|parts| - 1] == row;
    JoinLastChar("\n", parts);
  }

  /** Every character of a joined repetition comes from the part or the
      separator. */
  lemma {:induction false} JoinOfRepeatedHasOnly(sep: string, x: string, n: nat, i: nat)
    requires i < |Join(sep, Repeat(x, n))|
    ensures Join(sep, Repeat(x, n))[i] in x || Join(sep, Repeat(x, n))[i] in sep
  {
    var s := Join(sep, Repeat(x, n));
    if n > 1 {
      assert Repeat(x, n)[1..] == Repeat(x, n - 1);
      assert s == x + sep + Join(sep, Repeat(x, n - 1));
      if i < |x| {
        assert s[i] == x[i];
      } else if i < |x| + |sep| {
        assert s[i] == sep[i - |x|];
      } else {
        JoinOfRepeatedHasOnly(sep, x, n - 1, i - |x| - |sep|);
      }
    } else if n == 1 {
      assert s == x;
    }
  }

  /** Because `ROW_SIZE * COL_SIZE == PAGE_SIZE`, a page holds exactly
      `PAGE_SIZE` opcode tokens. */
  lemma PageTokens(g: Geometry)
    requires GeometryOk(g)
    ensures Words(MakePage(g)) == Repeat(Opcode, g.pageSize)
  {
    var row := MakeRow(g, Opcode);
    WordsOfJoin('\n', Repeat(row, g.rowSize));
    AllWordsRepeat(row, g.rowSize);
    RowTokens(g, Opcode);
    ConcatRepeat(Opcode, g.colSize, g.rowSize);
  }

  // ---------------------------------------------------------------------
  // The file

  /** The script's own constants pass both checks, so the file is written. */
  lemma DefaultIsWritten()
    ensures GeometryOk(Default) && PageCount == 16
  {
  }

  /** The header, character for character, stray `.` included. */
  lemma DefaultHeaderText()
    ensures Header(Default) ==
      ";; Distributed Memory Generator COE file\n"
      + ";; \tAddress Size = 65536\n"
      + ";; \tPage Size = 4096\n."
      + ";; memory_initialization_radix = 16;\n"
      + ";; memory_initialization_vector = \n"
  {
    AddressSizeDigits();
    PageSizeDigits();
  }

  lemma AddressSizeDigits()
    ensures Decimal(65536) == "65536"
  {
    assert ToDigits(6, 10) == "6";
    assert ToDigits(65, 10) == "65";
    assert ToDigits(655, 10) == "655";
    assert ToDigits(6553, 10) == "6553";
  }

  lemma PageSizeDigits()
    ensures Decimal(4096) == "4096"
  {
    assert ToDigits(4, 10) == "4";
    assert ToDigits(40, 10) == "40";
    assert ToDigits(409, 10) == "409";
  }

  /** The page header's two addresses read back in base 16 as the first
      and last address of the page. */
  lemma PageHeaderAddresses(g: Geometry, n: nat)
    requires g.pageSize >= 1
    ensures var first, last := ToDigits(PageStart(g, n), 16), ToDigits(PageEnd(g, n), 16);
      && PageHeader(g, n) == ";; Addresses from " + "0x" + first + " to " + "0x" + last + ".\n"
      && ParseInt(first, 16) == Some(PageStart(g, n))
      && ParseInt(last, 16) == Some(PageEnd(g, n))
  {
    PageBounds(g, n);
    ParseToDigits(PageStart(g, n), 16);
    ParseToDigits(PageEnd(g, n), 16);
  }

  lemma PageBounds(g: Geometry, n: nat)
    requires g.pageSize >= 1
    ensures 0 <= PageStart(g, n) <= PageEnd(g, n)
  {
    assert (n + 1) * g.pageSize == n * g.pageSize + g.pageSize;
  }

  /** Each page ends where the next begins. */
  lemma PagesAreContiguous(g: Geometry, n: nat)
    ensures PageEnd(g, n) + 1 == PageStart(g, n + 1)
    ensures PageStart(g, n) <= PageEnd(g, n) <==> g.pageSize >= 1
  {
  }

  /** Under the default geometry the sixteen pages run from `0x0000` to
      `0xFFFF`, and every address lies in exactly one of them: page
      `a / 4096`. */
  lemma PagesCoverAddressSpace(a: int, n: nat)
    requires 0 <= a < 0x1_0000 && n < PageCount
    ensures PageStart(Default, 0) == 0 && PageEnd(Default, PageCount - 1) == 0xFFFF
    ensures PageStart(Default, n) <= a <= PageEnd(Default, n) <==> n == a / 4096
  {
    var q := a / 4096;
    assert q * 4096 <= a < (q + 1) * 4096;
    if n < q {
      assert (n + 1) * 4096 <= q * 4096;
    } else if n > q {
      assert n * 4096 >= (q + 1) * 4096;
    }
  }

  // ---------------------------------------------------------------------
  // The file read back by the converter

  lemma OpcodeValue()
    ensures ParseInt(Opcode, 16) == Some(15)
  {
    assert IsDigitIn('0', 16) && IsDigitIn('F', 16);
    assert AllDigits(Opcode, 16);
    assert Opcode[..1] == "0" && "0"[..0] == "";
    assert ValueOf("0", 16) == 0;
  }

  lemma {:induction false} ScanRepeatedToken(n: nat)
    ensures Coe2Mif.ScanTokens(Repeat(Opcode, n)) == Coe2Mif.Scan(Repeat(15, n), None)
  {
    if n > 0 {
      assert Repeat(Opcode, n)[1..] == Repeat(Opcode, n - 1);
      OpcodeValue();
      ScanRepeatedToken(n - 1);
    }
  }

  /** Each row line of the generated file, read by `coe2mif`, yields
      `COL_SIZE` bytes of value 0x0F. */
  lemma RowLineYieldsNops(g: Geometry)
    ensures Coe2Mif.ScanLine(MakeRow(g, Opcode) + "\n") == Coe2Mif.Scan(Repeat(15, g.colSize), None)
  {
    var row := MakeRow(g, Opcode);
    var line := row + "\n";
    if g.colSize == 0 {
      assert line == "\n";
      assert IsBlank(line);
    } else {
      NopRowLine(g);
    }
  }

  lemma NopRowLine(g: Geometry)
    requires g.colSize >= 1
    ensures Coe2Mif.ScanLine(MakeRow(g, Opcode) + "\n") == Coe2Mif.Scan(Repeat(15, g.colSize), None)
  {
    var row := MakeRow(g, Opcode);
    var line := row + "\n";
    assert Words(line) == Repeat(Opcode, g.colSize) by {
      assert line == row + ['\n'] + [];
      WordsSplitAtSpace(row, '\n', []);
      assert Words([]) == [];
      RowTokens(g, Opcode);
    }
    assert !IsBlank(line) by {
      BlankIffNoWords(line);
    }
    assert line[0] == '0' by {
      JoinFirstChar(" ", Repeat(Opcode, g.colSize));
    }
    assert !StartsWith(line, ";") && !StartsWith(line, "memory");
    ScanRepeatedToken(g.colSize);
  }

  lemma {:induction false} JoinFirstChar(sep: string, parts: seq<string>)
    requires |parts| >= 1 && |parts[0]| >= 1
    ensures var s := Join(sep, parts); |s| >= 1 && s[0] == parts[0][0]
  {
  }

  /** The stray `.` opens the fourth line, so that line is no longer a `;`
      comment: `coe2mif` reads `.;;` as a token and rejects it. */
  lemma StrayDotBreaksTheRadixComment(line: string)
    requires line == "." + RadixLine
    ensures Coe2Mif.ScanLine(line) == Coe2Mif.Scan([], Some(Coe2Mif.NotHex(".;;")))
  {
    StrayDotLineWords(line);
    assert !StartsWith(line, ";") && !StartsWith(line, "memory");
    assert !IsBlank(line) by { assert !IsSpace(line[0]); }
    NotHexToken(".;;");
    Coe2Mif.TokenErrorEndsLine(Words(line), 0);
  }

  lemma StrayDotLineWords(line: string)
    requires line == "." + RadixLine
    ensures |Words(line)| > 0 && Words(line)[0] == ".;;"
  {
    assert RadixLine[0] == ';' && RadixLine[1] == ';' && RadixLine[2] == ' ';
    assert line[0] == '.' && line[1] == ';' && line[2] == ';' && line[3] == ' ';
    assert line[..3] == ".;;";
    FirstWord(line, 3);
  }

  /** A line whose first `n` characters are a word followed by a space. */
  lemma FirstWord(line: string, n: nat)
    requires n < |line| && IsWord(line[..n]) && line[n] == ' '
    ensures |Words(line)| > 0 && Words(line)[0] == line[..n]
  {
    assert line == line[..n] + [line[n]] + line[n + 1..];
    WordsSplitAtSpace(line[..n], ' ', line[n + 1..]);
    WordsOfWord(line[..n]);
  }

  lemma NotHexToken(token: string)
    requires token == ".;;"
    ensures Coe2Mif.ScanToken(token) == Coe2Mif.Scan([], Some(Coe2Mif.NotHex(token)))
  {
    assert !IsDigitIn(token[0], 16);
  }

  // ---------------------------------------------------------------------
  // The written file, line by line

  /** The header as a reader of the file sees it: five lines, the stray `.`
      opening the fourth. */
  function HeaderLines(g: Geometry): seq<string> {
    [";; Distributed Memory Generator COE file\n",
     ";; \tAddress Size = " + Decimal(g.highAddress) + "\n",
     ";; \tPage Size = " + Decimal(g.pageSize) + "\n",
     "." + RadixLine,
     VectorLine]
  }

  /** The lines of page `n`'s block: its comment line, then its rows. A page
      of no rows still leaves the newline written after it. */
  function PageLines(g: Geometry, n: nat): seq<string> {
    [PageHeader(g, n)] + RowLines(g)
  }

  function RowLines(g: Geometry): seq<string> {
    if g.rowSize == 0 then ["\n"] else Repeat(MakeRow(g, Opcode) + "\n", g.rowSize)
  }

  /** The lines of pages 0 to k - 1, in order. */
  function PagesLines(g: Geometry, k: nat): seq<string> {
    if k == 0 then [] else PagesLines(g, k - 1) + PageLines(g, k - 1)
  }

  /** When both checks pass, the file reads back, line by line, as the five
      header lines and then, page after page, each page's comment line
      followed by its rows. */
  lemma CoeFileLines(g: Geometry)
    requires GeometryOk(g)
    ensures CoeFile(g).Some?
    ensures Lines(CoeFile(g).value) == HeaderLines(g) + PagesLines(g, PageCount)
  {
    var hl, pl := HeaderLines(g), PagesLines(g, PageCount);
    HeaderAsLines(g);
    PagesAsLines(g, PageCount);
    ConcatAppend(hl, pl);
    AllLinesAppend(hl, pl);
    ReadBackLines(hl + pl);
  }

  /** The printed digits of a number hold no newline. */
  lemma DigitsOnOneLine(n: nat, base: nat)
    requires 2 <= base <= 36
    ensures '\n' !in ToDigits(n, base)
  {
    ToDigitsRoundTrip(n, base);
    var s := ToDigits(n, base);
    forall i | 0 <= i < |s| ensures s[i] != '\n' {
      assert IsDigitIn(s[i], base);
    }
  }

  lemma HexOnOneLine(i: int)
    ensures '\n' !in PyHex(i)
  {
    DigitsOnOneLine(if i < 0 then -i else i, 16);
  }

  lemma ConcatFive(a: string, b: string, c: string, d: string, e: string)
    ensures Concat([a, b, c, d, e]) == a + (b + (c + (d + e)))
  {
    assert Concat([e]) == e by { assert [e][1..] == []; assert e + [] == e; }
    assert Concat([d, e]) == d + e by { assert [d, e][1..] == [e]; }
    assert Concat([c, d, e]) == c + (d + e) by { assert [c, d, e][1..] == [d, e]; }
    assert Concat([b, c, d, e]) == b + (c + (d + e)) by { assert [b, c, d, e][1..] == [c, d, e]; }
    assert [a, b, c, d, e][1..] == [b, c, d, e];
  }

  lemma AllLinesFive(a: string, b: string, c: string, d: string, e: string)
    requires IsLine(a) && IsLine(b) && IsLine(c) && IsLine(d) && IsLine(e)
    ensures AllLines([a, b, c, d, e])
  {
  }

  /** The header is the concatenation of its five lines, each a complete
      line. */
  lemma HeaderAsLines(g: Geometry)
    ensures Concat(HeaderLines(g)) == Header(g)
    ensures AllLines(HeaderLines(g))
  {
    HeaderConcat(g);
    HeaderLinesComplete(g);
  }

  lemma HeaderConcat(g: Geometry)
    ensures Concat(HeaderLines(g)) == Header(g)
  {
    var hl := HeaderLines(g);
    ConcatFive(hl[0], hl[1], hl[2], hl[3], hl[4]);
    Regroup(";; Distributed Memory Generator COE file\n", ";; \tAddress Size = ",
      Decimal(g.highAddress), ";; \tPage Size = ", Decimal(g.pageSize), RadixLine, VectorLine);
  }

  lemma Regroup(t: string, c1: string, d1: string, c2: string, d2: string, r: string, v: string)
    ensures t + c1 + d1 + "\n" + c2 + d2 + "\n." + r + v
      == t + ((c1 + d1 + "\n") + ((c2 + d2 + "\n") + (("." + r) + v)))
  {
    assert "\n." == "\n" + ".";
  }

  lemma HeaderLinesComplete(g: Geometry)
    ensures AllLines(HeaderLines(g))
  {
    var hl := HeaderLines(g);
    TitleLine(hl[0]);
    CaptionHasNoNewline(";; \tAddress Size = ");
    CaptionHasNoNewline(";; \tPage Size = ");
    SizeLine(";; \tAddress Size = ", g.highAddress);
    SizeLine(";; \tPage Size = ", g.pageSize);
    LiteralLine(hl[3], "." + RadixLine);
    LiteralLine(hl[4], VectorLine);
    AllLinesFive(hl[0], hl[1], hl[2], hl[3], hl[4]);
  }

  lemma TitleLine(t: string)
    requires t == ";; Distributed Memory Generator COE file\n"
    ensures IsLine(t)
  {
  }

  lemma CaptionHasNoNewline(c: string)
    requires c == ";; \tAddress Size = " || c == ";; \tPage Size = "
    ensures '\n' !in c
  {
  }

  lemma LiteralLine(l: string, text: string)
    requires l == text
    requires text == "." + RadixLine || text == VectorLine
    ensures IsLine(l)
  {
  }

  lemma SizeLine(caption: string, n: nat)
    requires '\n' !in caption
    ensures IsLine(caption + Decimal(n) + "\n")
  {
    DigitsOnOneLine(n, 10);
    EndedLine(caption + Decimal(n));
  }

  /** `"\n".join(rows) + "\n"` is the rows, each ended by a newline. */
  lemma {:induction false} JoinedRowsThenNewline(row: string, r: nat)
    requires r >= 1
    ensures Concat(Repeat(row + "\n", r)) == Join("\n", Repeat(row, r)) + "\n"
  {
    assert Repeat(row + "\n", r)[1..] == Repeat(row + "\n", r - 1);
    if r > 1 {
      assert Repeat(row, r)[1..] == Repeat(row, r - 1);
      JoinedRowsThenNewline(row, r - 1);
    }
  }

  /** One page block is its comment line and its row lines, each a complete
      line. */
  lemma PageAsLines(g: Geometry, n: nat)
    ensures Concat(PageLines(g, n)) == PageBlock(g, n)
    ensures AllLines(PageLines(g, n))
  {
    var h, rows := PageHeader(g, n), RowLines(g);
    PageHeaderIsLine(g, n);
    assert PageLines(g, n)[1..] == rows;
    RowHasNoNewline(g, Opcode);
    EndedLine(MakeRow(g, Opcode));
    if g.rowSize == 0 {
      assert MakePage(g) == "";
      assert Concat(rows) == "\n" by { assert rows[1..] == []; }
    } else {
      JoinedRowsThenNewline(MakeRow(g, Opcode), g.rowSize);
    }
    assert h + MakePage(g) + "\n" == h + (MakePage(g) + "\n");
  }

  lemma PageHeaderIsLine(g: Geometry, n: nat)
    ensures IsLine(PageHeader(g, n)) && PageHeader(g, n)[0] == ';'
  {
    var first, last := PyHex(PageStart(g, n)), PyHex(PageEnd(g, n));
    HexOnOneLine(PageStart(g, n));
    HexOnOneLine(PageEnd(g, n));
    var body := ";; Addresses from " + first + " to " + last + ".";
    EndedLine(body);
    assert PageHeader(g, n) == body + "\n";
  }

  /** A row of an opcode without newline has no newline. */
  lemma RowHasNoNewline(g: Geometry, opcode: string)
    requires '\n' !in opcode
    ensures '\n' !in MakeRow(g, opcode)
  {
    var row := MakeRow(g, opcode);
    forall i | 0 <= i < |row| ensures row[i] != '\n' {
      JoinOfRepeatedHasOnly(" ", opcode, g.colSize, i);
    }
  }

  /** Pages 0 to k - 1 are, line by line, each page's comment line followed
      by its rows, page after page, and every one is a complete line. */
  lemma PagesAsLines(g: Geometry, k: nat)
    ensures Concat(PagesLines(g, k)) == Pages(g, k)
    ensures AllLines(PagesLines(g, k))
  {
    PagesConcat(g, k);
    PagesComplete(g, k);
  }

  lemma {:induction false} PagesConcat(g: Geometry, k: nat)
    ensures Concat(PagesLines(g, k)) == Pages(g, k)
  {
    if k > 0 {
      PagesConcat(g, k - 1);
      PageConcatStep(g, k - 1);
    }
  }

  lemma PageConcatStep(g: Geometry, n: nat)
    requires Concat(PagesLines(g, n)) == Pages(g, n)
    ensures Concat(PagesLines(g, n + 1)) == Pages(g, n + 1)
  {
    PageAsLines(g, n);
    ConcatAppend(PagesLines(g, n), PageLines(g, n));
  }

  lemma {:induction false} PagesComplete(g: Geometry, k: nat)
    ensures AllLines(PagesLines(g, k))
  {
    if k > 0 {
      PagesComplete(g, k - 1);
      PageCompleteStep(g, k - 1);
    }
  }

  lemma PageCompleteStep(g: Geometry, n: nat)
    requires AllLines(PagesLines(g, n))
    ensures AllLines(PagesLines(g, n + 1))
  {
    PageAsLines(g, n);
    AllLinesAppend(PagesLines(g, n), PageLines(g, n));
  }

  // ---------------------------------------------------------------------
  // The written file read back by the converter

  lemma CommentSkipped(line: string)
    requires |line| >= 1 && line[0] == ';'
    ensures Coe2Mif.IsSkipped(line)
  {
    assert line[..1] == [line[0]];
  }

  /** A line `coe2mif` skips, in front of other lines, changes nothing. */
  lemma SkipFirst(line: string, rest: seq<string>)
    requires Coe2Mif.IsSkipped(line)
    ensures Coe2Mif.ScanLines([line] + rest) == Coe2Mif.ScanLines(rest)
  {
    assert ([line] + rest)[1..] == rest;
    assert [] + Coe2Mif.ScanLines(rest).values == Coe2Mif.ScanLines(rest).values;
  }

  lemma {:induction false} ScanRepeatedLine(line: string, vs: seq<nat>, r: nat)
    requires Coe2Mif.ScanLine(line) == Coe2Mif.Scan(vs, None)
    ensures Coe2Mif.ScanLines(Repeat(line, r)) == Coe2Mif.Scan(Concat(Repeat(vs, r)), None)
  {
    if r > 0 {
      assert Repeat(line, r)[1..] == Repeat(line, r - 1);
      assert Repeat(vs, r)[1..] == Repeat(vs, r - 1);
      ScanRepeatedLine(line, vs, r - 1);
    }
  }

  /** Read by `coe2mif`, one page block yields `ROW_SIZE * COL_SIZE` bytes of
      0x0F and no error: its comment line is skipped. */
  lemma PageReadsAsNops(g: Geometry, n: nat)
    ensures Coe2Mif.ScanLines(PageLines(g, n)) == Coe2Mif.Scan(Repeat(15, g.rowSize * g.colSize), None)
  {
    var h := PageHeader(g, n);
    PageHeaderIsLine(g, n);
    CommentSkipped(h);
    RowLinesScan(g);
    SkipFirst(h, RowLines(g));
  }

  lemma RowLinesScan(g: Geometry)
    ensures Coe2Mif.ScanLines(RowLines(g)) == Coe2Mif.Scan(Repeat(15, g.rowSize * g.colSize), None)
  {
    if g.rowSize == 0 {
      Coe2Mif.ScanLinesOne("\n");
      assert IsBlank("\n");
    } else {
      RowLineYieldsNops(g);
      ScanRepeatedLine(MakeRow(g, Opcode) + "\n", Repeat(15, g.colSize), g.rowSize);
      ConcatRepeat<nat>(15, g.colSize, g.rowSize);
    }
  }

  /** Read by `coe2mif`, the pages alone yield one 0x0F byte per address they
      cover, in order, and no error. */
  lemma {:induction false} PagesReadAsNops(g: Geometry, k: nat)
    ensures Coe2Mif.ScanLines(Lines(Pages(g, k))) == Coe2Mif.Scan(Repeat(15, k * (g.rowSize * g.colSize)), None)
  {
    PagesAsLines(g, k);
    ReadBackLines(PagesLines(g, k));
    PagesLinesScan(g, k);
  }

  lemma {:induction false} PagesLinesScan(g: Geometry, k: nat)
    ensures Coe2Mif.ScanLines(PagesLines(g, k)) == Coe2Mif.Scan(Repeat(15, k * (g.rowSize * g.colSize)), None)
  {
    var p := g.rowSize * g.colSize;
    if k > 0 {
      PagesLinesScan(g, k - 1);
      PageReadsAsNops(g, k - 1);
      Coe2Mif.ScanLinesAppend(PagesLines(g, k - 1), PageLines(g, k - 1));
      RepeatAdd<nat>(15, (k - 1) * p, p);
      assert (k - 1) * p + p == k * p;
    }
  }

  /** With the script's constants the pages fill the whole 64 KiB address
      space with NOPs. */
  lemma DefaultPagesFillAddressSpace(g: Geometry)
    requires g == Default
    ensures Coe2Mif.ScanLines(Lines(Pages(g, PageCount))) == Coe2Mif.Scan(Repeat(15, g.highAddress), None)
  {
    PagesReadAsNops(g, PageCount);
    DefaultPagesCover(g);
  }

  lemma DefaultPagesCover(g: Geometry)
    requires g == Default
    ensures PageCount * (g.rowSize * g.colSize) == g.highAddress
  {
    assert PageCount == 16 && g.rowSize == 64 && g.colSize == 64 && g.highAddress == 65536;
  }

  /** The header's five lines, read by `coe2mif`: the three comment lines are
      skipped and the fourth raises, so the header yields nothing. */
  lemma HeaderIsRejected(g: Geometry)
    ensures Coe2Mif.ScanLines(HeaderLines(g)) == Coe2Mif.Scan([], Some(Coe2Mif.NotHex(".;;")))
  {
    var hl := HeaderLines(g);
    CommentSkipped(hl[0]);
    CommentSkipped(hl[1]);
    CommentSkipped(hl[2]);
    SkipFirst(hl[0], hl[1..]);
    assert hl[1..] == [hl[1]] + hl[2..];
    SkipFirst(hl[1], hl[2..]);
    assert hl[2..] == [hl[2]] + hl[3..];
    SkipFirst(hl[2], hl[3..]);
    StrayDotBreaksTheRadixComment(hl[3]);
    assert hl[3..] == [hl[3]] + hl[4..];
    assert Coe2Mif.ScanLines(hl[3..]) == Coe2Mif.Then(Coe2Mif.ScanLine(hl[3]), Coe2Mif.ScanLines(hl[4..]));
  }

  /** So the file the script writes is rejected by the repository's own
      converter at its fourth line, before any byte: the stray `.` turns the
      radix comment into data. */
  lemma WrittenFileIsRejected(g: Geometry)
    requires GeometryOk(g)
    ensures CoeFile(g).Some?
    ensures Coe2Mif.ScanLines(Lines(CoeFile(g).value)) == Coe2Mif.Scan([], Some(Coe2Mif.NotHex(".;;")))
  {
    CoeFileLines(g);
    HeaderIsRejected(g);
    Coe2Mif.ErrorStopsTheScan(HeaderLines(g), PagesLines(g, PageCount));
  }
}
