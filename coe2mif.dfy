/** The COE -> MIF converter (`scripts/coe2mif.py`): a Xilinx `.coe` memory
    image, one line at a time, becomes the list of byte values it holds, and
    each byte becomes one line of eight binary digits in the `.mif` file.
    File reading and writing are left to the caller: the `.coe` file arrives
    as its sequence of lines and the `.mif` file leaves as its sequence of
    written lines. */
module Coe2Mif {
  import opened Wrappers
  import opened Strings
  import opened Numerals

  /** Why `byte_gen` stops early; Python raises `ValueError` for both. */
  datatype CoeError =
    | NotHex(token: string)    // `int(token, 16)` rejects the token
    | AboveByte(value: nat)    // the value is above 255

  /** What a consumer of `byte_gen` sees: the values it yielded, then the
      error it raised, if any. */
  datatype Scan = Scan(values: seq<nat>, error: Option<CoeError>)

  const NoBytes := Scan([], None)

  /** Running `a`'s generator and then `b`'s: once `a` has raised, `b`
      never runs. */
  function Then(a: Scan, b: Scan): Scan {
    if a.error.Some? then a else Scan(a.values + b.values, b.error)
  }

  predicate IsByte(v: nat) { v <= 255 }

  predicate AllBytes(vs: seq<nat>) {
    forall i :: 0 <= i < |vs| ==> IsByte(vs[i])
  }

  /** Comment (`;`), directive (`memory...`) and blank lines carry no data.
      Only column 0 counts: an indented `;` is not a comment. */
  predicate IsSkipped(line: string) {
    StartsWith(line, ";") || StartsWith(line, "memory") || IsBlank(line)
  }

  /** One whitespace-separated token: its hex value, or the error. */
  function ScanToken(token: string): Scan {
    match ParseInt(token, 16)
    case None => Scan([], Some(NotHex(token)))
    case Some(v) => if v > 255 then Scan([], Some(AboveByte(v))) else Scan([v], None)
  }

  function ScanTokens(tokens: seq<string>): (r: Scan)
    ensures AllBytes(r.values)
  {
    if tokens == [] then NoBytes else Then(ScanToken(tokens[0]), ScanTokens(tokens[1..]))
  }

  function ScanLine(line: string): Scan {
    if StartsWith(line, ";") || StartsWith(line, "memory") then NoBytes
    else if IsBlank(line) then NoBytes
    else ScanTokens(Words(line))
  }

  /** Everything `byte_gen` yields for a file with these lines, and how it
      ends. */
  function ScanLines(lines: seq<string>): (r: Scan)
    ensures AllBytes(r.values)
  {
    if lines == [] then NoBytes else Then(ScanLine(lines[0]), ScanLines(lines[1..]))
  }

  /** The tokens of the data lines, in file order. */
  function DataTokens(lines: seq<string>): seq<string> {
    if lines == [] then []
    else (if IsSkipped(lines[0]) then [] else Words(lines[0])) + DataTokens(lines[1..])
  }

  predicate IsByteToken(token: string) {
    ParseInt(token, 16).Some? && ParseInt(token, 16).value <= 255
  }

  /** `byte_gen` as the nested loop it is: over the lines, then over the
      tokens of each data line, appending each value and stopping at the
      first bad token. */
  method ByteGen(lines: seq<string>) returns (values: seq<nat>, error: Option<CoeError>)
    ensures Scan(values, error) == ScanLines(lines)
    ensures AllBytes(values)
  {
    values, error := [], None;
    var i := 0;
    while i < |lines|
      invariant 0 <= i <= |lines|
      invariant ScanLines(lines[..i]) == Scan(values, None)
    {
      var line := lines[i];
      ghost var before := values;
      ScanLinesStep(lines, i);
      if StartsWith(line, ";") || StartsWith(line, "memory") {
        ThenNoBytes(Scan(values, None));
      } else if IsBlank(line) {
        ThenNoBytes(Scan(values, None));
      } else {
        var tokens := Words(line);
        var j := 0;
        while j < |tokens|
          invariant 0 <= j <= |tokens|
          invariant ScanTokens(tokens[..j]).error.None?
          invariant values == before + ScanTokens(tokens[..j]).values
        {
          var token := tokens[j];
          ScanTokensStep(tokens, j);
          var parsed := ParseInt(token, 16);
          if parsed.None? || parsed.value > 255 {
            error := Some(if parsed.None? then NotHex(token) else AboveByte(parsed.value));
            TokenErrorEndsLine(tokens, j);
            StopAfterLine(lines, i);
            return;
          }
          values := values + [parsed.value];
          j := j + 1;
        }
        assert tokens[..j] == tokens;
      }
      i := i + 1;
    }
    assert lines[..i] == lines;
  }

  lemma ScanLinesStep(lines: seq<string>, i: nat)
    requires i < |lines|
    ensures ScanLines(lines[..i + 1]) == Then(ScanLines(lines[..i]), ScanLine(lines[i]))
  {
    assert lines[..i + 1] == lines[..i] + [lines[i]];
    ScanLinesAppend(lines[..i], [lines[i]]);
    ScanLinesOne(lines[i]);
  }

  lemma ScanTokensStep(tokens: seq<string>, j: nat)
    requires j < |tokens|
    ensures ScanTokens(tokens[..j + 1]) == Then(ScanTokens(tokens[..j]), ScanToken(tokens[j]))
  {
    assert tokens[..j + 1] == tokens[..j] + [tokens[j]];
    ScanTokensAppend(tokens[..j], [tokens[j]]);
    ScanTokensOne(tokens[j]);
  }

  lemma TokenErrorEndsLine(tokens: seq<string>, j: nat)
    requires j < |tokens|
    requires ScanTokens(tokens[..j]).error.None? && ScanToken(tokens[j]).error.Some?
    ensures ScanTokens(tokens) == Scan(ScanTokens(tokens[..j]).values, ScanToken(tokens[j]).error)
  {
    ScanTokensStep(tokens, j);
    assert tokens[..j + 1] + tokens[j + 1..] == tokens;
    ScanTokensAppend(tokens[..j + 1], tokens[j + 1..]);
  }

  lemma StopAfterLine(lines: seq<string>, i: nat)
    requires i < |lines| && ScanLines(lines[..i + 1]).error.Some?
    ensures ScanLines(lines) == ScanLines(lines[..i + 1])
  {
    assert lines[..i + 1] + lines[i + 1..] == lines;
    ScanLinesAppend(lines[..i + 1], lines[i + 1..]);
  }

  // ---------------------------------------------------------------------
  // left_pad and the .mif file

  /** The `.mif` column width, `left_pad`'s default `N`. */
  const MifWidth := 8

  /** `left_pad(byte, N)`: `bin(byte)` without its `0b`, preceded by
      `N - len` zeros; a negative count gives no zeros. */
  function LeftPad(b: nat, n: int): string {
    var raw := ToDigits(b, 2);
    var pad := n - |raw|;
    Zeros(if pad > 0 then pad else 0) + raw
  }

  /** The `.mif` name: the text after the last `.` is dropped and `.mif`
      appended (`'.'.join(coe_file.split('.')[0:-1]) + '.mif'`). */
  function MifName(coeFile: string): string {
    var parts := SplitOn(coeFile, '.');
    Join(".", parts[..|parts| - 1]) + ".mif"
  }

  /** The one exception `convert` lets out, whatever went wrong inside. */
  const WriteProblem := "Problem writing to location."

  /** `convert`: the name of the file written, the lines written to it in
      order, and the `IOError` message if the `.coe` data was bad. The
      lines written before the bad token stay written. */
  method Convert(coeFile: string, coeLines: seq<string>)
    returns (mifFile: string, written: seq<string>, raised: Option<string>)
    ensures mifFile == MifName(coeFile)
    ensures var scan := ScanLines(coeLines);
      && |written| == |scan.values|
      && (forall k :: 0 <= k < |written| ==> written[k] == LeftPad(scan.values[k], MifWidth) + "\n")
      && raised == (if scan.error.Some? then Some(WriteProblem) else None)
    ensures forall k :: 0 <= k < |written| ==>
      |written[k]| == MifWidth + 1 && written[k][MifWidth] == '\n'
  {
    mifFile := MifName(coeFile);
    var values, error := ByteGen(coeLines);
    written := [];
    for k := 0 to |values|
      invariant |written| == k
      invariant forall m :: 0 <= m < k ==> written[m] == LeftPad(values[m], MifWidth) + "\n"
      invariant forall m :: 0 <= m < k ==> |written[m]| == MifWidth + 1 && written[m][MifWidth] == '\n'
    {
      LeftPadWidth(values[k], MifWidth);
      written := written + [LeftPad(values[k], MifWidth) + "\n"];
    }
    raised := if error.Some? then Some(WriteProblem) else None;
  }

  /** What `main(args)` does with its argument list. */
  datatype Command =
    | ShowUsage(message: string, status: int)   // `print(...)`, `return 1`
    | ConvertFile(coeFile: string)            // `convert(args[1])`
    | IndexError                              // `args[1]` with no arguments at all

  const Usage := "Usage: coe2mif.py <filename>"

  function Dispatch(args: seq<string>): (c: Command)
    ensures c.ShowUsage? <==> |args| == 1
    ensures c.ShowUsage? ==> c == ShowUsage(Usage, 1)
    ensures c.ConvertFile? <==> |args| >= 2
    ensures c.ConvertFile? ==> c.coeFile == args[1]
  {
    if |args| == 1 then ShowUsage(Usage, 1)
    else if |args| == 0 then IndexError
    else ConvertFile(args[1])
  }

  // ---------------------------------------------------------------------
  // Lemmas: how scans compose

  lemma ThenAssoc(a: Scan, b: Scan, c: Scan)
    ensures Then(Then(a, b), c) == Then(a, Then(b, c))
  {
  }

  lemma ThenNoBytes(a: Scan)
    ensures Then(a, NoBytes) == a
  {
    assert a.values + [] == a.values;
  }

  lemma ScanLinesOne(line: string)
    ensures ScanLines([line]) == ScanLine(line)
  {
    assert [line][1..] == [];
    ThenNoBytes(ScanLine(line));
  }

  lemma ScanTokensOne(token: string)
    ensures ScanTokens([token]) == ScanToken(token)
  {
    assert [token][1..] == [];
    ThenNoBytes(ScanToken(token));
  }

  lemma {:induction false} ScanTokensAppend(a: seq<string>, b: seq<string>)
    ensures ScanTokens(a + b) == Then(ScanTokens(a), ScanTokens(b))
  {
    if a == [] {
      assert a + b == b;
    } else {
      assert (a + b)[0] == a[0] && (a + b)[1..] == a[1..] + b;
      ScanTokensAppend(a[1..], b);
      ThenAssoc(ScanToken(a[0]), ScanTokens(a[1..]), ScanTokens(b));
    }
  }

  /** The file is read in order: scanning two files one after the other is
      scanning their concatenation. */
  lemma {:induction false} ScanLinesAppend(a: seq<string>, b: seq<string>)
    ensures ScanLines(a + b) == Then(ScanLines(a), ScanLines(b))
  {
    if a == [] {
      assert a + b == b;
    } else {
      assert (a + b)[0] == a[0] && (a + b)[1..] == a[1..] + b;
      ScanLinesAppend(a[1..], b);
      ThenAssoc(ScanLine(a[0]), ScanLines(a[1..]), ScanLines(b));
    }
  }

  // ---------------------------------------------------------------------
  // Lemmas: what byte_gen yields

  /** A comment, directive or blank line can be removed from the file
      without changing anything `byte_gen` yields or raises. */
  lemma SkippedLineContributesNothing(a: seq<string>, line: string, b: seq<string>)
    requires IsSkipped(line)
    ensures ScanLines(a + [line] + b) == ScanLines(a + b)
  {
    ScanLinesAppend(a + [line], b);
    ScanLinesAppend(a, [line]);
    ScanLinesOne(line);
    ThenNoBytes(ScanLines(a));
    ScanLinesAppend(a, b);
  }

  /** A `;` comment that is indented, by any run of whitespace, is not
      skipped: its first token opens with `;`, which is not hex, so the line
      raises at once and yields nothing. */
  lemma IndentedCommentIsRejected(ws: string, rest: string)
    requires |ws| >= 1 && IsBlank(ws)
    ensures var line := ws + ";" + rest;
      var words := Words(line);
      && !IsSkipped(line)
      && |words| >= 1 && words[0][0] == ';'
      && ScanLine(line) == Scan([], Some(NotHex(words[0])))
  {
    var line := ws + ";" + rest;
    assert line == ws + (";" + rest);
    WordsAfterBlank(ws, ";" + rest);
    FirstWordStart(";" + rest);
    var words := Words(line);
    assert IsSpace(line[0]);
    assert !StartsWith(line, ";") && !StartsWith(line, "memory");
    assert !IsBlank(line) by { assert line[|ws|] == ';'; }
    assert ParseInt(words[0], 16) == None by { assert !IsDigitIn(words[0][0], 16); }
    assert words[..0] == [];
    TokenErrorEndsLine(words, 0);
  }

  /** Once `byte_gen` has raised, the lines after the bad one do not
      matter. */
  lemma ErrorStopsTheScan(a: seq<string>, b: seq<string>)
    requires ScanLines(a).error.Some?
    ensures ScanLines(a + b) == ScanLines(a)
  {
    ScanLinesAppend(a, b);
  }

  /** Reading stops at the first bad token and yields nothing after it:
      the values yielded so far are always a prefix of what a longer file
      yields. */
  lemma ScanIsPrefix(a: seq<string>, b: seq<string>)
    ensures ScanLines(a).values <= ScanLines(a + b).values
  {
    ScanLinesAppend(a, b);
  }

  /** Line structure is irrelevant: `byte_gen` yields what scanning the
      data tokens of the file, in token and then file order, yields. */
  lemma {:induction false} ScanLinesIsScanTokens(lines: seq<string>)
    ensures ScanLines(lines) == ScanTokens(DataTokens(lines))
  {
    if lines != [] {
      ScanLinesIsScanTokens(lines[1..]);
      var here := if IsSkipped(lines[0]) then [] else Words(lines[0]);
      ScanTokensAppend(here, DataTokens(lines[1..]));
      if IsBlank(lines[0]) {
        BlankIffNoWords(lines[0]);
      }
    }
  }

  /** What `ScanTokens` yields, token by token: the value of every token
      before the first bad one, then that token's error, or no error when
      every token is a byte. */
  lemma {:induction false} ScanTokensMeaning(tokens: seq<string>)
    ensures var r := ScanTokens(tokens);
      var n := |r.values|;
      && n <= |tokens|
      && (forall i :: 0 <= i < n ==> IsByteToken(tokens[i]) && ParseInt(tokens[i], 16) == Some(r.values[i]))
      && (r.error.None? <==> n == |tokens|)
      && (r.error.Some? ==> !IsByteToken(tokens[n]) && r.error == ScanToken(tokens[n]).error)
  {
    if tokens != [] {
      ScanTokensMeaning(tokens[1..]);
    }
  }

  /** The whole contract of `byte_gen`: the values are the hex values of
      the data tokens up to the first bad one, in order; with no error every
      data token is yielded; the error, if any, is that token's. */
  lemma ByteGenMeaning(lines: seq<string>)
    ensures var r := ScanLines(lines);
      var tokens := DataTokens(lines);
      var n := |r.values|;
      && n <= |tokens|
      && (forall i :: 0 <= i < n ==> ParseInt(tokens[i], 16) == Some(r.values[i]) && r.values[i] <= 255)
      && (r.error.None? <==> n == |tokens|)
      && (r.error.None? <==> forall i :: 0 <= i < |tokens| ==> IsByteToken(tokens[i]))
      && (r.error.Some? ==> !IsByteToken(tokens[n]) && r.error == ScanToken(tokens[n]).error)
  {
    ScanLinesIsScanTokens(lines);
    ScanTokensMeaning(DataTokens(lines));
  }

  // ---------------------------------------------------------------------
  // Lemmas: left_pad and the file name

  /** `left_pad` output is as long as the longer of `N` and the binary
      digits of the value. */
  lemma LeftPadLength(b: nat, n: int)
    ensures var raw := |ToDigits(b, 2)|;
      |LeftPad(b, n)| == if n > raw then n else raw
  {
  }

  /** For every value below `2^N` the line is exactly `N` characters, and
      for every value from `2^N` up it is longer: both directions. */
  lemma LeftPadWidth(b: nat, n: nat)
    requires n >= 1
    ensures b < Pow(2, n) <==> |LeftPad(b, n)| == n
    ensures b >= Pow(2, n) ==> LeftPad(b, n) == ToDigits(b, 2)
  {
    ToDigitsLength(b, 2, n);
    assert Zeros(0) + ToDigits(b, 2) == ToDigits(b, 2);
  }

  /** Only `0` and `1` appear, and the text reads back in base 2 as the
      value. */
  lemma LeftPadReadsBack(b: nat, n: int)
    ensures forall i :: 0 <= i < |LeftPad(b, n)| ==> LeftPad(b, n)[i] in "01"
    ensures ParseInt(LeftPad(b, n), 2) == Some(b)
  {
    var raw := ToDigits(b, 2);
    ToDigitsRoundTrip(b, 2);
    var pad := n - |raw|;
    LeadingZerosValue(if pad > 0 then pad else 0, raw, 2);
    var r := LeftPad(b, n);
    forall i | 0 <= i < |r| ensures r[i] in "01" {
      assert IsDigitIn(r[i], 2);
    }
    ToDigitsLeading(b, 2);
  }

  /** Each line written to the `.mif` file is eight binary digits and a
      newline, and its digits read back as the byte. */
  lemma MifLineDecodes(v: nat)
    requires IsByte(v)
    ensures var line := LeftPad(v, MifWidth) + "\n";
      && |line| == 9 && line[8] == '\n'
      && (forall i :: 0 <= i < 8 ==> line[i] in "01")
      && ParseInt(line[..8], 2) == Some(v)
  {
    assert Pow(2, 8) == 256;
    LeftPadWidth(v, MifWidth);
    LeftPadReadsBack(v, MifWidth);
    var line := LeftPad(v, MifWidth) + "\n";
    assert line[..8] == LeftPad(v, MifWidth);
  }

  /** The `.mif` name ends in `.mif` and keeps everything of the `.coe`
      name before its last `.`; a name without `.` gives just `.mif`. */
  lemma MifNameDropsExtension(coeFile: string)
    ensures var r := MifName(coeFile);
      var n := |r| - 4;
      && |r| >= 4 && r[n..] == ".mif"
      && ('.' !in coeFile ==> r == ".mif")
      && ('.' in coeFile ==> n < |coeFile| && r[..n] == coeFile[..n]
                             && coeFile[n] == '.' && '.' !in coeFile[n + 1..])
  {
    var parts := SplitOn(coeFile, '.');
    if '.' in coeFile {
      SplitOnDropLast(coeFile, '.');
    } else {
      SplitOnNoSep(coeFile, '.');
    }
  }
}
