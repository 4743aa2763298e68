# gmcastil/6502 helper scripts in Dafny

The repository's Python tooling around its 65C02 design consists of three
small text transforms. This project models each of them and proves what they
promise.

- **`coe2mif.py`** converts a Xilinx `.coe` memory image into a `.mif`
  simulation file.
  - `byte_gen` skips comment (`;`), directive (`memory...`) and blank lines.
    It reads every other line as whitespace-separated hex tokens and raises
    on a token that is not hex or whose value is above 255.
  - `left_pad` writes each byte as eight binary digits.
  - `convert` derives the `.mif` name and writes one line per byte.
  - `main` prints a usage line when no file is named.
- **`coe_gen.py`** (Python 2) writes `basic.coe`: a five-line header, then
  sixteen 4 KiB pages. Each page is a comment line giving its address range,
  then 64 rows of 64 `0F` opcodes. Two geometry checks come first.
  - Read back by `coe2mif`'s parser, the pages alone give one `0x0F` byte
    for each of the 65536 addresses.
  - The whole file is rejected at its fourth line, before any byte: a stray
    `.` in the header turns the radix comment into data.
- **`severity.py`** highlights Vivado log lines.
  - A line that starts with a severity (`STATUS`, `INFO`, `WARNING`,
    `CRITICAL WARNING`, `ERROR`) gets its severity word wrapped in that
    severity's ANSI colour.
  - The regex then finds the first `: [...]` message ID. The script wraps
    the first occurrence of that ID's text in the coloured line in bright
    white. This is not always the ID the regex matched (see Findings).
  - Every other line passes through unchanged.

Modules:

- `Wrappers`: `Option` and `Result`.
- `Strings`: the Python `str` operations the scripts use. These are
  `startswith`, `split()`, `split(c)`, `join`, `find` and `replace(..., 1)`,
  with `isspace` on Python's whitespace code points.
- `Numerals`: `int(s, base)` on digit strings, and the digits printed by
  `bin`, `hex` and `str`.
- `Coe2Mif`, `CoeGen`, `Severity`: the three scripts.

`Strings.Lines` cuts a text whose line ends are `\n` into lines, as
iterating over a Python file does. This is how the model reads the file `coe_gen.py` writes with
`coe2mif.py`.

`byte_gen`'s nested loops are the method `Coe2Mif.ByteGen`. It is proved
equal to the function `Coe2Mif.ScanLines`, and the properties of the parser
are lemmas about that function. `convert`'s write loop is the method
`Coe2Mif.Convert`. The rest is pure and is modelled as functions.

`coe_gen.py`'s constants are collected in a `CoeGen.Geometry` value, with the
script's own values in `CoeGen.Default`. This keeps the two checks in `main`
from being dead branches. The page loop's bound is the literal
`2**16 / 2**12` (Python 2 floor division, 16). It does not follow the
geometry, and the model keeps it that way.

## Model

| member | source | states |
|---|---|---|
| Coe2Mif.ByteGen | scripts/coe2mif.py:26-42 | the nested loop yields exactly what `ScanLines` gives (the same values and the same error), and every value is at most 255 |
| Coe2Mif.ScanLines | scripts/coe2mif.py:27-42 | every value the parser yields is a byte |
| Coe2Mif.SkippedLineContributesNothing | scripts/coe2mif.py:29-33 | a line starting at column 0 with `;` or `memory`, or a whitespace-only line, can be removed from the file without changing the values or the error |
| Coe2Mif.ScanLine | scripts/coe2mif.py:28-42 | models one pass of the outer loop: a line starting with `;` or `memory`, or a whitespace-only line, gives nothing; any other line's `split()` tokens are parsed in order (properties below) |
| Coe2Mif.IndentedCommentIsRejected | scripts/coe2mif.py:29-30 | a `;` comment indented by any non-empty run of whitespace, whatever follows the `;`, is not skipped: its first token starts with `;`, and the line raises the not-hex error of that token with no values |
| Coe2Mif.ScanLinesAppend | scripts/coe2mif.py:26-27 | lines are read in file order: scanning `a + b` is scanning `a`, then `b` unless `a` already raised |
| Coe2Mif.ScanLinesIsScanTokens | scripts/coe2mif.py:27-35 | the parse of a file is the parse of the tokens of its data lines, in token order and then in file order |
| Coe2Mif.ScanTokensMeaning | scripts/coe2mif.py:35-42 | each value is the hex value of the token at the same position; the scan ends without an error exactly when every token is a byte; otherwise the error is that of the first bad token |
| Coe2Mif.ByteGenMeaning | scripts/coe2mif.py:35-42 | over a whole file: the values are the hex values (at most 255) of the data tokens up to the first bad one; no error exactly when every data token is yielded, and exactly when every data token is a byte; otherwise the error is that of the first bad token |
| Coe2Mif.ErrorStopsTheScan | scripts/coe2mif.py:38-40 | once a bad token has raised, nothing in the lines after it is yielded |
| Coe2Mif.ScanIsPrefix | scripts/coe2mif.py:37-42 | values already yielded stay yielded: the values from a file are a prefix of those from any longer file |
| Coe2Mif.LeftPad | scripts/coe2mif.py:78-81 | models `left_pad`: the digits of `bin(byte)[2:]` behind `N - len` zeros, none when that count is not positive (properties in the next three rows) |
| Coe2Mif.LeftPadLength | scripts/coe2mif.py:78-81 | the padded string is as long as the larger of `N` and the bit length; a negative pad count adds no zeros |
| Coe2Mif.LeftPadWidth | scripts/coe2mif.py:78-81 | the string is exactly `N` characters if and only if the value is below `2^N`; a larger value comes back unpadded |
| Coe2Mif.LeftPadReadsBack | scripts/coe2mif.py:78-81 | only `0` and `1` appear, and the string read back with `int(s, 2)` is the value |
| Coe2Mif.MifLineDecodes | scripts/coe2mif.py:62-63 | each line written for a byte is 8 binary digits and a newline, and its digits read back as the byte |
| Coe2Mif.MifName | scripts/coe2mif.py:55-57 | models the `.mif` name: `'.'.join(coe_file.split('.')[0:-1]) + '.mif'` (property in the next row) |
| Coe2Mif.MifNameDropsExtension | scripts/coe2mif.py:55-57 | the `.mif` name keeps the `.coe` name up to its last `.` and appends `.mif`; a name without `.` gives just `.mif` |
| Coe2Mif.Convert | scripts/coe2mif.py:55-65 | the output name; one line `left_pad(b) + "\n"` per parsed byte, in order, each 9 characters; the bytes before a bad token are written, and then `Problem writing to location.` is raised |
| Coe2Mif.Dispatch | scripts/coe2mif.py:83-88 | usage and status 1 exactly when only the program name is given; `convert(args[1])` exactly when a file is named |
| Numerals.ParseInt | scripts/coe2mif.py:37 | models `int(byte, 16)`, and `int(s, 2)` in `Coe2Mif.LeftPadReadsBack`, on non-empty digit strings; any other string is the `ValueError` case (round trip: `Numerals.ParseToDigits`) |
| Numerals.ParseToDigits | scripts/coe2mif.py:37 | the digits `bin`, `hex` and `str` print for `n` read back with `int(s, base)` as `n` |
| Numerals.PyHex | scripts/coe_gen.py:89-90 | models `hex()`: `0x`, or `-0x` for a negative number, then the lower-case hex digits without leading zeros (read back: `CoeGen.PageHeaderAddresses`) |
| Numerals.Decimal | scripts/coe_gen.py:82-83 | models the `{HIGH_ADDRESS}` and `{PAGE_SIZE}` format fields: the decimal digits without leading zeros (values in `CoeGen.DefaultHeaderText`) |
| Strings.BlankIffNoWords | scripts/coe2mif.py:32 | `not line.strip()` holds exactly when `line.split()` is empty |
| Strings.Words | scripts/coe2mif.py:35 | `split()` yields only non-empty tokens without whitespace |
| Strings.SplitOn | scripts/coe2mif.py:55 | `split('.')` gives at least one part and no part holds the separator |
| Strings.IndexOf | scripts/severity.py:40 | `find` gives the leftmost occurrence, or none when there is no occurrence at any index |
| Strings.Replace1 | scripts/severity.py:51 | models `replace(old, new, 1)`: the leftmost occurrence found by `IndexOf` is replaced, and a string without one is returned unchanged (what this does on message lines: `Severity.ColoredWithId`, `Severity.ColoredMisplacesId`, `Severity.ColoredSplitsReset`) |
| Strings.Lines | scripts/coe2mif.py:26-27 | models `for line in lines` on a text whose line ends are `\n`: the text cut after every `\n`, each line keeping it, a last line without one kept as it is (properties in the next two rows) |
| Strings.LinesKeepText | scripts/coe2mif.py:26-27 | the lines of a file, joined again, are the file |
| Strings.ReadBackLines | scripts/coe2mif.py:26-27 | text made of complete lines, each ending in its only newline, is read back as exactly those lines |
| CoeGen.CoeFile | scripts/coe_gen.py:74-93 | nothing is written exactly when a geometry check fails; otherwise the file starts with the header (the whole text, line by line: `CoeGen.CoeFileLines`) |
| CoeGen.CoeFileLines | scripts/coe_gen.py:80-93 | when both checks pass, the file's lines are the five header lines, then for each page in order its comment line and its `ROW_SIZE` row lines |
| CoeGen.PagesAsLines | scripts/coe_gen.py:87-93 | the pages, joined, are the text the loop writes; each page contributes its comment line then its rows, each a complete line |
| CoeGen.PageAsLines | scripts/coe_gen.py:91-93 | one page block is its comment line and `ROW_SIZE` lines of a row and a newline (one bare newline when `ROW_SIZE` is 0), each a complete line |
| CoeGen.MakeRow | scripts/coe_gen.py:61-62 | models `make_row`: `COL_SIZE` copies of the opcode joined by spaces (properties in `RowTokens`, `RowShape`, `DefaultRow`) |
| CoeGen.MakePage | scripts/coe_gen.py:48-49 | models `make_page`: `ROW_SIZE` default rows joined by newlines (properties in `PageShape`, `PageTokens`) |
| CoeGen.Header | scripts/coe_gen.py:81-86 | models the joined header list, the `.` after the page-size newline included (property in `DefaultHeaderText`, `HeaderIsRejected`) |
| CoeGen.PageBlock | scripts/coe_gen.py:89-93 | models one turn of the page loop: the page comment, `make_page()` and `"\n"`, as `writelines` writes them (its lines: `CoeGen.PageAsLines`) |
| CoeGen.Pages | scripts/coe_gen.py:87-93 | models the page loop: the blocks of pages 0 to k - 1, in order (its lines: `CoeGen.PagesAsLines`; read back: `CoeGen.PagesReadAsNops`) |
| CoeGen.PageHeader | scripts/coe_gen.py:89-91 | models `page_hdr`: the comment naming `hex` of the page's first and last address (properties in `PageHeaderAddresses`, `PagesAreContiguous`) |
| CoeGen.RowTokens | scripts/coe_gen.py:61-62 | a row split on whitespace is `COL_SIZE` copies of the opcode |
| CoeGen.RowShape | scripts/coe_gen.py:61-62 | a row split on single spaces is `COL_SIZE` copies of the opcode, and its length is `COL_SIZE` opcodes plus `COL_SIZE - 1` separators |
| CoeGen.DefaultRow | scripts/coe_gen.py:51-62 | with no argument the row is 64 `0F` tokens and 63 spaces |
| CoeGen.PageShape | scripts/coe_gen.py:48-49 | a page split on newlines is `ROW_SIZE` identical default rows, and the page ends in the last opcode, not a newline |
| CoeGen.PageTokens | scripts/coe_gen.py:32-34 | when `ROW_SIZE * COL_SIZE == PAGE_SIZE` holds, a page has exactly `PAGE_SIZE` opcode tokens |
| CoeGen.DefaultIsWritten | scripts/coe_gen.py:74-79 | the script's own constants pass both checks, and there are 16 pages |
| CoeGen.DefaultHeaderText | scripts/coe_gen.py:81-86 | the header is the five literal lines, with the stray `.` after the page-size newline |
| CoeGen.PageHeaderAddresses | scripts/coe_gen.py:89-91 | page `n`'s comment names `0x` + the hex digits of `n * PAGE_SIZE` and `(n + 1) * PAGE_SIZE - 1`, and both read back as those addresses |
| CoeGen.PagesAreContiguous | scripts/coe_gen.py:89-90 | each page ends one address before the next starts, and a page is non-empty exactly when `PAGE_SIZE >= 1` |
| CoeGen.PagesCoverAddressSpace | scripts/coe_gen.py:87-90 | the 16 pages run from 0x0000 to 0xFFFF, and every address lies in page `a / 4096` and no other |
| CoeGen.RowLineYieldsNops | scripts/coe_gen.py:61-62 | a generated row line, read by `coe2mif`, yields `COL_SIZE` bytes of value 0x0F |
| CoeGen.StrayDotBreaksTheRadixComment | scripts/coe_gen.py:83-84 | the radix line with the `.` in front is no longer a `;` comment: `coe2mif` reads `.;;` as a token and rejects it with no bytes |
| CoeGen.HeaderIsRejected | scripts/coe_gen.py:81-86 | read by `coe2mif`, the header's five lines yield no byte: the three comment lines are skipped and the fourth, `.;; memory_initialization_radix = 16;`, raises the not-hex error of `.;;` |
| CoeGen.PageReadsAsNops | scripts/coe_gen.py:89-93 | read by `coe2mif`, one page block yields `ROW_SIZE * COL_SIZE` bytes of 0x0F and no error: its comment line is skipped |
| CoeGen.PagesReadAsNops | scripts/coe_gen.py:87-93 | read by `coe2mif`, the pages alone yield `k * ROW_SIZE * COL_SIZE` bytes of 0x0F, in order, and no error |
| CoeGen.DefaultPagesFillAddressSpace | scripts/coe_gen.py:87-93 | with the script's constants, the pages read back as exactly `HIGH_ADDRESS` (65536) bytes of 0x0F and no error |
| CoeGen.WrittenFileIsRejected | scripts/coe_gen.py:80-93 | when both checks pass, the whole file read by `coe2mif` raises the not-hex error of `.;;` at its fourth line and yields no byte: the pages are never reached |
| Severity.IsMessage | scripts/severity.py:55-59 | models `is_message` as `startswith` on each of the five keys (property in the next row) |
| Severity.IsMessageIff | scripts/severity.py:55-59 | `is_message` holds exactly when the line starts with a key of `MESSAGES` |
| Severity.KeyFacts | scripts/severity.py:25-29 | no severity word contains `:`, `]` or a newline |
| Severity.FirstColon | scripts/severity.py:40 | `split(":", 1)` fails exactly when there is no colon; otherwise it splits at the first one |
| Severity.IdSearch | scripts/severity.py:45-46 | the regex match is `: [` followed by the first `]` after it, with no newline in between, at the leftmost position where such a match exists, or no match when there is none |
| Severity.ColoredErrors | scripts/severity.py:40-41 | `ValueError` exactly when the line has no colon; `KeyError` exactly when the text before the first colon is not a key; the corrected version raises the same |
| Severity.LongerWordRaises | scripts/severity.py:40-41 | `INFORMATION: x` passes `is_message` but raises `KeyError` on `INFORMATION` |
| Severity.MissingColonRaises | scripts/severity.py:40 | `ERROR`, with no colon, passes `is_message` but raises `ValueError` |
| Severity.Colored | scripts/severity.py:38-53 | models `colored` as written: split at the first `:`, colour the word, then `Replace1` of the matched ID text in the whole coloured line (properties in the rows that follow) |
| Severity.ColoredVivadoLine | scripts/severity.py:38-53 | on `SEVERITY: [Id] text` the output is the colour, the word, reset, `: `, bright white, `[Id]`, reset, then `text` unchanged |
| Severity.ColoredWithId | scripts/severity.py:44-51 | when no `]` comes before the matched ID, the script wraps the matched ID at its own position |
| Severity.PaintedWithoutId | scripts/severity.py:40-47 | with no ID, the output is the colour, the word, reset, `:` and the remainder unchanged, for the script and the corrected version alike |
| Severity.ColoredAtMatch | scripts/severity.py:38-53 | the corrected `colored`: the same split and colouring, with the ID wrapped at the position the regex matched (properties in `PaintedWithId`, `MarkupKeepsText`) |
| Severity.PaintedWithId | scripts/severity.py:44-51 | the corrected version wraps exactly the matched text, from its `[` to its `]`, between bright white and reset |
| Severity.MarkupKeepsText | scripts/severity.py:42-51 | removing the inserted escape sequences gives back the line |
| Severity.ColoredAgreesWithoutEarlierBracket | scripts/severity.py:38-53 | the script and the corrected version agree, on errors and on output, on every line where no `]` comes before the matched ID |
| Severity.ColoredMisplacesId | scripts/severity.py:51 | on `INFO: x [a] y: [a]` the script wraps the first `[a]`, not the matched one |
| Severity.ColoredAtMatchPlacesId | scripts/severity.py:45-51 | on that line the corrected version wraps the second `[a]`, the one the regex matched |
| Severity.MisplacedLineDiffers | scripts/severity.py:51 | that line is a message, and the two versions write different output for it |
| Severity.ColoredSplitsReset | scripts/severity.py:42-51 | on `INFO:]: [0m:]` the script's replace lands inside the reset after `INFO`: the output no longer starts with the colour, `INFO` and the reset |
| Severity.ColoredAtMatchKeepsReset | scripts/severity.py:45-51 | on that line the corrected version keeps the reset after `INFO` whole and wraps the matched `[0m:]` |
| Severity.Highlight | scripts/severity.py:31-36 | the corrected `main` for one line: a message is coloured by `ColoredAtMatch`, any other line is written unchanged (properties in the next three rows) |
| Severity.HighlightKeepsText | scripts/severity.py:31-36 | in the corrected `main`, what is written for a line is the line with escape sequences inserted, and nothing else |
| Severity.HighlightErrors | scripts/severity.py:31-36 | in the corrected `main` as in the script, a line stops `main` exactly when it is a message and `colored` raises on it; a non-message line is written unchanged |
| Severity.HighlightMatchesScript | scripts/severity.py:31-36 | on every line where no `]` comes before a message's matched ID, the model's `main` writes what the script writes |

## Left out

- File and stream I/O are not modelled. This covers `open`, `write` and `writelines` in `coe2mif.py` and `coe_gen.py`, and stdin/stdout in `severity.py`. Files are sequences of lines or strings passed in and returned.
- `int(token, 16)` accepts more than plain ASCII hex digits: a `0x` prefix, underscores, a sign, surrounding whitespace, and non-ASCII Unicode decimal digits (U+0661 U+0662 reads as 0x12, and `split()` keeps such digits inside a token). The model accepts only non-empty digit strings. Whitespace cannot reach it anyway, since tokens come from `split()`. None of the other forms are modelled, so a negative value is never produced.
- The message text of a token `int()` rejects is not modelled. `ValueError('Invalid entries in .coe file')` is the `AboveByte` case. `convert` turns both into the same `IOError`.
- The `os.path.dirname(os.path.abspath(...))` value in `convert` is unused and not modelled.
- Universal-newline translation is not modelled. Python 3 text mode ends a line at a bare `\r` and reads `\r\n` as `\n`, but `Strings.Lines` cuts only after `\n`. On text containing `\r` the lines of the model differ from what `coe2mif.py` reads, and `Strings.LinesKeepText` and `Strings.ReadBackLines` describe the model, not Python. The file `coe_gen.py` writes contains no `\r`.
- The output path `./basic.coe` of `coe_gen.py` is not modelled: `CoeGen.CoeFile` is the text written there.
- Coe2Mif.Convert: the model raises only for bad `.coe` data. A failure to open or write the `.mif` file also becomes `Problem writing to location.` in the script, and that case is not modelled.
- Coe2Mif.ByteGen: the generator's laziness is not modelled. The method returns the values yielded before the error together with the error, as a consumer of the generator sees them.
- The regex engine is replaced by an explicit leftmost scan for `: [` followed by the first `]` on the same line. This is what `\: \[.*?\]` matches.
- The colour constants `severity.py` defines but never uses are left out. The ones it uses are their real escape sequences.
- Python 2 `print` statements and the `sys.exit`/`argv` plumbing are left out. The message texts of `coe_gen.py`'s two checks are not modelled: the model only says nothing is written.
- Severity.HighlightMatchesScript: `Severity.Highlight` uses the corrected colouring (see Findings). On lines where a `]` comes before the matched ID it can differ from the script. This lemma states the agreement only where none does.
- A line that makes `colored` raise ends the script's stdin loop. The model handles one line at a time, so it does not say that the lines after it are never written.
- `scripts/coe.py` (`from_coe`) has only a docstring and no body.
- The repository's shown files contain no 6502 assembler, opcode table, addressing modes or encoder, so none is modelled.

## Findings

| source | as written | input that shows it | evidently intended | confidence | as-written member | corrected member |
|---|---|---|---|---|---|---|
| scripts/severity.py:51 | the matched ID text is replaced at its first occurrence anywhere in the coloured line | `INFO: x [a] y: [a]`: the earlier `[a]` is wrapped and the matched one is not | wrap the ID the regex matched, at the position where it matched | not executed | Severity.ColoredMisplacesId | Severity.ColoredAtMatchPlacesId |
| scripts/severity.py:51 | the search for the ID text also covers the reset sequence and colon the script has just inserted | `INFO:]: [0m:]`: the bright-white code is written inside the reset after `INFO` | wrap the ID the regex matched and leave the inserted codes whole | not executed | Severity.ColoredSplitsReset | Severity.ColoredAtMatchKeepsReset |

The script as written is `Severity.Colored`. The corrected version is
`Severity.ColoredAtMatch`, which `Severity.Highlight` uses. The
corrected version wraps `line[m.0 + 2..m.1 + 1]` in place
(`Severity.PaintedWithId`), loses no text (`Severity.MarkupKeepsText`), and
agrees with the script wherever no `]` precedes the match
(`Severity.ColoredAgreesWithoutEarlierBracket`).
