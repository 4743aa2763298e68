/** The Vivado log highlighter (`scripts/severity.py`): a log line that
    starts with a severity (`STATUS`, `INFO`, `WARNING`, `CRITICAL WARNING`,
    `ERROR`) gets its severity word wrapped in that severity's ANSI colour;
    the text `[...]` of the first `: [...]` the regex finds is then searched
    for in the coloured line, and its first occurrence there is wrapped in
    bright white, which is not always the occurrence the regex matched. Any
    other line passes through unchanged. Reading stdin and writing stdout
    are left to the caller: the model works on one line at a time. */
module Severity {
  import opened Wrappers
  import opened Strings

  /** The colours the script uses; the others it defines are never used. */
  datatype Colour = White | Yellow | BrightYellow | BrightOrange | BrightRed | BrightWhite | Reset

  const Esc := [27 as char]

  /** The 256-colour SGR escape sequence of each colour. */
  function Code(c: Colour): string {
    match c
    case White => Esc + "[38;5;7m"
    case Yellow => Esc + "[38;5;3m"
    case BrightYellow => Esc + "[38;5;11m"
    case BrightOrange => Esc + "[38;5;202m"
    case BrightRed => Esc + "[38;5;9m"
    case BrightWhite => Esc + "[38;5;15m"
    case Reset => Esc + "[0m"
  }

  /** `MESSAGES`: severity word to colour. */
  const Messages: map<string, Colour> := map[
    "STATUS" := White,
    "INFO" := Yellow,
    "WARNING" := BrightYellow,
    "CRITICAL WARNING" := BrightOrange,
    "ERROR" := BrightRed]

  /** `is_message`: `line.startswith(tuple(MESSAGES.keys()))`. */
  predicate IsMessage(line: string) {
    StartsWith(line, "STATUS") || StartsWith(line, "INFO") || StartsWith(line, "WARNING")
    || StartsWith(line, "CRITICAL WARNING") || StartsWith(line, "ERROR")
  }

  /** What `colored` raises: the two-way unpack of `split(":", 1)` fails
      (`ValueError`), or the text before the colon is not a key
      (`KeyError`). */
  datatype ColourError = NoColon | UnknownSeverity(message: string)

  // ---------------------------------------------------------------------
  // The message-ID search: the regex `\: \[.*?\]`

  /** From `i` on, the first `]` is at `j`, and no newline (which `.` does
      not match) comes before it. */
  predicate ClosesAt(line: string, i: nat, j: nat) {
    i <= j < |line| && line[j] == ']'
    && forall x :: i <= x < j ==> line[x] != ']' && line[x] != '\n'
  }

  /** The regex matches `line[p..j + 1]`. */
  predicate IdAt(line: string, p: nat, j: nat) {
    p + 3 <= |line| && line[p..p + 3] == ": [" && ClosesAt(line, p + 3, j)
  }

  function CloseFrom(line: string, i: nat): (r: Option<nat>)
    requires i <= |line|
    ensures r.Some? ==> ClosesAt(line, i, r.value)
    ensures r.None? ==> forall j: nat :: !ClosesAt(line, i, j)
    decreases |line| - i
  {
    if i == |line| || line[i] == '\n' then None
    else if line[i] == ']' then Some(i)
    else (var r := CloseFrom(line, i + 1);
          assert forall j :: ClosesAt(line, i, j) ==> ClosesAt(line, i + 1, j);
          r)
  }

  function IdFrom(line: string, p: nat): (r: Option<(nat, nat)>)
    requires p <= |line|
    ensures r.Some? ==> p <= r.value.0 && IdAt(line, r.value.0, r.value.1)
    ensures r.Some? ==> forall q: nat, j: nat :: p <= q < r.value.0 ==> !IdAt(line, q, j)
    ensures r.None? ==> forall q: nat, j: nat :: p <= q ==> !IdAt(line, q, j)
    decreases |line| - p
  {
    var here := if p + 3 <= |line| && line[p..p + 3] == ": [" then CloseFrom(line, p + 3) else None;
    if here.Some? then Some((p, here.value))
    else if p == |line| then None
    else IdFrom(line, p + 1)
  }

  /** `err_pattern.search(line)`: the leftmost match, as the index of its
      `:` and of its `]`. */
  function IdSearch(line: string): (r: Option<(nat, nat)>)
    ensures r.Some? ==> IdAt(line, r.value.0, r.value.1)
    ensures r.Some? ==> forall q: nat, j: nat :: q < r.value.0 ==> !IdAt(line, q, j)
    ensures r.None? ==> forall q: nat, j: nat :: !IdAt(line, q, j)
  {
    IdFrom(line, 0)
  }

  // ---------------------------------------------------------------------
  // colored, as written

  /** `colored(line)`: split at the first `:`, colour the severity word,
      then replace the first occurrence, anywhere in the coloured line, of
      the matched ID text `[...]` by its bright-white version. */
  function Colored(line: string): Result<string, ColourError> {
    match IndexOf(line, ":")
    case None => Err(NoColon)
    case Some(k) =>
      var message, remainder := line[..k], line[k + 1..];
      if message !in Messages then Err(UnknownSeverity(message))
      else
        var coloredLine := Code(Messages[message]) + message + Code(Reset) + ":" + remainder;
        match IdSearch(line)
        case None => Ok(coloredLine)
        case Some(m) =>
          var errCode := line[m.0 + 2..m.1 + 1];
          Ok(Replace1(coloredLine, errCode, Code(BrightWhite) + errCode + Code(Reset)))
  }

  // ---------------------------------------------------------------------
  // colored, with the ID wrapped where the regex found it

  /** Coloured output as text runs and inserted escape sequences. */
  datatype Piece = Text(s: string) | Paint(c: Colour)

  /** What one piece writes: its text, or its escape sequence. */
  function Show(p: Piece): string {
    match p
    case Text(s) => s
    case Paint(c) => Code(c)
  }

  /** The text of one piece: escape sequences write none. */
  function TextOf(p: Piece): string {
    match p
    case Text(s) => s
    case Paint(_) => ""
  }

  function Render(ps: seq<Piece>): string {
    if ps == [] then "" else Render(ps[..|ps| - 1]) + Show(ps[|ps| - 1])
  }

  /** The text of the pieces with every inserted escape sequence removed. */
  function Plain(ps: seq<Piece>): string {
    if ps == [] then "" else Plain(ps[..|ps| - 1]) + TextOf(ps[|ps| - 1])
  }

  /** The pieces of a coloured message line: the severity colour, the
      severity word, reset, the colon, and the rest with the matched ID
      (from `[` to `]`) between bright white and reset. */
  function Markup(line: string): Result<seq<Piece>, ColourError> {
    match IndexOf(line, ":")
    case None => Err(NoColon)
    case Some(k) =>
      var message, remainder := line[..k], line[k + 1..];
      if message !in Messages then Err(UnknownSeverity(message))
      else
        var head := [Paint(Messages[message]), Text(message), Paint(Reset), Text(":")];
        match IdSearch(line)
        case None => Ok(head + [Text(remainder)])
        case Some(m) =>
          IdAfterColon(line, k, m);
          Ok(head + [Text(line[k + 1..m.0 + 2]), Paint(BrightWhite), Text(line[m.0 + 2..m.1 + 1]),
                     Paint(Reset), Text(line[m.1 + 1..])])
  }

  /** `colored` as its comment says it is meant to work: only the message
      ID the regex found is wrapped. */
  function ColoredAtMatch(line: string): Result<string, ColourError> {
    match Markup(line)
    case Err(e) => Err(e)
    case Ok(ps) => Ok(Render(ps))
  }

  /** `main`'s rule for one line, with the corrected colouring: a message
      is coloured by `ColoredAtMatch`, any other line is written unchanged.
      `HighlightMatchesScript` says where this is what the script writes. */
  function Highlight(line: string): Result<string, ColourError> {
    if IsMessage(line) then ColoredAtMatch(line) else Ok(line)
  }

  // ---------------------------------------------------------------------
  // Lemmas: the pieces

  lemma Assoc(x: string, y: string, z: string)
    ensures (x + y) + z == x + (y + z)
  {
  }

  lemma RenderSnoc(ps: seq<Piece>, p: Piece)
    ensures Render(ps + [p]) == Render(ps) + Show(p)
    ensures Plain(ps + [p]) == Plain(ps) + TextOf(p)
  {
    assert (ps + [p])[..|ps|] == ps;
  }

  lemma {:induction false} RenderAppend(a: seq<Piece>, b: seq<Piece>)
    ensures Render(a + b) == Render(a) + Render(b)
    ensures Plain(a + b) == Plain(a) + Plain(b)
  {
    if b == [] {
      assert a + b == a;
    } else {
      var c, p := b[..|b| - 1], b[|b| - 1];
      assert b == c + [p];
      assert a + b == (a + c) + [p];
      RenderSnoc(a + c, p);
      RenderSnoc(c, p);
      RenderAppend(a, c);
      Assoc(Render(a), Render(c), Show(p));
      Assoc(Plain(a), Plain(c), TextOf(p));
    }
  }

  lemma RenderOne(p: Piece)
    ensures Render([p]) == Show(p) && Plain([p]) == TextOf(p)
  {
    RenderSnoc([], p);
    assert [] + [p] == [p];
  }

  // ---------------------------------------------------------------------
  // Lemmas: the pieces of the severity table and the split

  /** No severity word holds `:`, `]` or a newline. */
  lemma KeyFacts(key: string)
    requires key in Messages
    ensures ':' !in key && ']' !in key && '\n' !in key
  {
  }

  lemma CodeHasNoBracket(c: Colour)
    ensures ']' !in Code(c)
  {
  }

  /** `split(":", 1)` looks for the first colon. */
  lemma FirstColon(line: string)
    ensures IndexOf(line, ":").None? <==> ':' !in line
    ensures IndexOf(line, ":").Some? ==> var k := IndexOf(line, ":").value;
      k < |line| && line[k] == ':' && ':' !in line[..k]
  {
    var r := IndexOf(line, ":");
    if r.None? {
      forall j | 0 <= j < |line| ensures line[j] != ':' {
        assert !OccursAt(line, ":", j);
        assert line[j..j + 1] == [line[j]];
      }
    } else {
      var k := r.value;
      assert OccursAt(line, ":", k);
      assert line[k..k + 1] == [line[k]];
      forall j | 0 <= j < k ensures line[j] != ':' {
        assert !OccursAt(line, ":", j);
        assert line[j..j + 1] == [line[j]];
      }
    }
  }

  /** The first colon is the one `split` finds. */
  lemma ColonAt(line: string, k: nat)
    requires k < |line| && line[k] == ':' && ':' !in line[..k]
    ensures IndexOf(line, ":") == Some(k)
  {
    FirstColon(line);
    assert line[k] in line;
  }

  /** `is_message` holds exactly when the line starts with a key of
      `MESSAGES`. */
  lemma IsMessageIff(line: string)
    ensures IsMessage(line) <==> exists key :: key in Messages && StartsWith(line, key)
  {
    if IsMessage(line) {
      if StartsWith(line, "STATUS") { assert "STATUS" in Messages; }
      else if StartsWith(line, "INFO") { assert "INFO" in Messages; }
      else if StartsWith(line, "WARNING") { assert "WARNING" in Messages; }
      else if StartsWith(line, "CRITICAL WARNING") { assert "CRITICAL WARNING" in Messages; }
      else { assert "ERROR" in Messages; }
    }
  }

  // ---------------------------------------------------------------------
  // Lemmas: errors

  /** `colored` raises `ValueError` exactly when the line has no colon, and
      otherwise `KeyError` exactly when the text before the first colon is
      not a key; the corrected version raises the same. */
  lemma ColoredErrors(line: string)
    ensures Colored(line) == Err(NoColon) <==> ':' !in line
    ensures forall k :: 0 <= k < |line| && line[k] == ':' && ':' !in line[..k] ==>
      (Colored(line).Err? <==> line[..k] !in Messages)
      && (Colored(line).Err? ==> Colored(line) == Err(UnknownSeverity(line[..k])))
    ensures Colored(line).Err? ==> ColoredAtMatch(line) == Colored(line)
    ensures Colored(line).Ok? <==> ColoredAtMatch(line).Ok?
  {
    FirstColon(line);
    forall k | 0 <= k < |line| && line[k] == ':' && ':' !in line[..k]
      ensures IndexOf(line, ":") == Some(k)
    {
      ColonAt(line, k);
    }
  }

  /** A line can pass `is_message` and still make `colored` raise: a word
      before the colon that only starts with a severity is a `KeyError`. */
  lemma LongerWordRaises(line: string)
    requires line == "INFORMATION: x"
    ensures IsMessage(line) && Colored(line) == Err(UnknownSeverity("INFORMATION"))
  {
    assert StartsWith(line, "INFO");
    assert line[11] == ':' && line[..11] == "INFORMATION";
    ColonAt(line, 11);
  }

  /** A severity word with no colon is a `ValueError`: `split(":", 1)`
      gives one part where two are unpacked. */
  lemma MissingColonRaises(line: string)
    requires line == "ERROR"
    ensures IsMessage(line) && Colored(line) == Err(NoColon)
  {
    assert StartsWith(line, "ERROR");
    FirstColon(line);
  }

  // ---------------------------------------------------------------------
  // Lemmas: where the escape sequences go

  /** The head of a coloured message: severity colour, severity word,
      reset, colon. */
  lemma RenderTwo(p: Piece, q: Piece)
    ensures Render([p, q]) == Show(p) + Show(q) && Plain([p, q]) == TextOf(p) + TextOf(q)
  {
    RenderOne(p);
    RenderSnoc([p], q);
    assert [p] + [q] == [p, q];
  }

  lemma RenderThree(p: Piece, q: Piece, r: Piece)
    ensures Render([p, q, r]) == Show(p) + Show(q) + Show(r)
    ensures Plain([p, q, r]) == TextOf(p) + TextOf(q) + TextOf(r)
  {
    RenderTwo(p, q);
    RenderSnoc([p, q], r);
    assert [p, q] + [r] == [p, q, r];
  }

  lemma RenderFour(p: Piece, q: Piece, r: Piece, s: Piece)
    ensures Render([p, q, r, s]) == Show(p) + Show(q) + Show(r) + Show(s)
    ensures Plain([p, q, r, s]) == TextOf(p) + TextOf(q) + TextOf(r) + TextOf(s)
  {
    RenderThree(p, q, r);
    RenderSnoc([p, q, r], s);
    assert [p, q, r] + [s] == [p, q, r, s];
  }

  lemma RenderFive(p: Piece, q: Piece, r: Piece, s: Piece, t: Piece)
    ensures Render([p, q, r, s, t]) == Show(p) + Show(q) + Show(r) + Show(s) + Show(t)
    ensures Plain([p, q, r, s, t]) == TextOf(p) + TextOf(q) + TextOf(r) + TextOf(s) + TextOf(t)
  {
    RenderFour(p, q, r, s);
    RenderSnoc([p, q, r, s], t);
    assert [p, q, r, s] + [t] == [p, q, r, s, t];
  }

  /** The head of a coloured message: severity colour, severity word,
      reset, colon. */
  lemma HeadRender(c: Colour, message: string)
    ensures Render([Paint(c), Text(message), Paint(Reset), Text(":")]) == Code(c) + message + Code(Reset) + ":"
    ensures Plain([Paint(c), Text(message), Paint(Reset), Text(":")]) == message + ":"
  {
    RenderFour(Paint(c), Text(message), Paint(Reset), Text(":"));
  }

  /** The tail of a coloured message with an ID: bright white and reset
      around the middle run. */
  lemma TailRender(x: string, y: string, z: string)
    ensures Render([Text(x), Paint(BrightWhite), Text(y), Paint(Reset), Text(z)])
      == x + Code(BrightWhite) + y + Code(Reset) + z
    ensures Plain([Text(x), Paint(BrightWhite), Text(y), Paint(Reset), Text(z)]) == x + y + z
  {
    RenderFive(Text(x), Paint(BrightWhite), Text(y), Paint(Reset), Text(z));
  }

  lemma Regroup(h: string, x: string, p: string, y: string, q: string, z: string)
    ensures h + (x + p + y + q + z) == h + x + p + y + q + z
  {
  }

  lemma Regroup3(h: string, x: string, y: string, z: string)
    ensures h + (x + y + z) == h + x + y + z
  {
  }

  lemma CutAtColonAndId(line: string, k: nat, i: nat, j: nat)
    requires k < i <= j <= |line| && line[k] == ':'
    ensures line == line[..k] + ":" + line[k + 1..i] + line[i..j] + line[j..]
  {
  }

  /** The rendering and the text of a coloured line with an ID. */
  lemma IdLinePieces(c: Colour, message: string, x: string, y: string, z: string)
    ensures Render([Paint(c), Text(message), Paint(Reset), Text(":")]
      + [Text(x), Paint(BrightWhite), Text(y), Paint(Reset), Text(z)])
      == Code(c) + message + Code(Reset) + ":" + x + Code(BrightWhite) + y + Code(Reset) + z
  {
    var head := [Paint(c), Text(message), Paint(Reset), Text(":")];
    var tail := [Text(x), Paint(BrightWhite), Text(y), Paint(Reset), Text(z)];
    RenderAppend(head, tail);
    HeadRender(c, message);
    TailRender(x, y, z);
    Regroup(Code(c) + message + Code(Reset) + ":", x, Code(BrightWhite), y, Code(Reset), z);
  }

  /** The text of a coloured line with an ID. */
  lemma IdLineText(c: Colour, message: string, x: string, y: string, z: string)
    ensures Plain([Paint(c), Text(message), Paint(Reset), Text(":")]
      + [Text(x), Paint(BrightWhite), Text(y), Paint(Reset), Text(z)])
      == message + ":" + x + y + z
  {
    var head := [Paint(c), Text(message), Paint(Reset), Text(":")];
    var tail := [Text(x), Paint(BrightWhite), Text(y), Paint(Reset), Text(z)];
    RenderAppend(head, tail);
    HeadRender(c, message);
    TailRender(x, y, z);
    Regroup3(message + ":", x, y, z);
  }

  /** A message line with no ID gets only its severity word coloured, by
      the script and by the corrected version alike. */
  lemma PaintedWithoutId(line: string, k: nat)
    requires IndexOf(line, ":") == Some(k) && line[..k] in Messages && IdSearch(line).None?
    ensures ColoredAtMatch(line) == Ok(Code(Messages[line[..k]]) + line[..k] + Code(Reset) + ":" + line[k + 1..])
    ensures Colored(line) == ColoredAtMatch(line)
  {
    var message, remainder := line[..k], line[k + 1..];
    var head := [Paint(Messages[message]), Text(message), Paint(Reset), Text(":")];
    HeadRender(Messages[message], message);
    RenderSnoc(head, Text(remainder));
  }

  /** Removing the escape sequences from a message line with no ID gives
      the line back. */
  lemma NoIdLineKeepsText(line: string, k: nat)
    requires IndexOf(line, ":") == Some(k) && line[..k] in Messages && IdSearch(line).None?
    ensures Markup(line).Ok? && Plain(Markup(line).value) == line
  {
    FirstColon(line);
    var message, remainder := line[..k], line[k + 1..];
    var head := [Paint(Messages[message]), Text(message), Paint(Reset), Text(":")];
    HeadRender(Messages[message], message);
    RenderSnoc(head, Text(remainder));
    CutAtColon(line, k);
  }

  lemma CutAtColon(line: string, k: nat)
    requires k < |line| && line[k] == ':'
    ensures line == line[..k] + ":" + line[k + 1..]
  {
  }

  /** The pieces `Markup` gives a message line whose ID the regex finds. */
  lemma MarkupWithId(line: string, k: nat, m: (nat, nat))
    requires IndexOf(line, ":") == Some(k) && line[..k] in Messages && IdSearch(line) == Some(m)
    ensures k <= m.0 < m.1 < |line|
    ensures Markup(line) == Ok([Paint(Messages[line[..k]]), Text(line[..k]), Paint(Reset), Text(":")]
      + [Text(line[k + 1..m.0 + 2]), Paint(BrightWhite), Text(line[m.0 + 2..m.1 + 1]), Paint(Reset), Text(line[m.1 + 1..])])
  {
    IdAfterColon(line, k, m);
  }

  /** A message line whose ID the regex finds at `m0` (its `:`) to `m1`
      (its `]`) gets the severity word coloured and exactly
      `line[m0 + 2..m1 + 1]`, from `[` to `]`, in bright white. */
  lemma PaintedWithId(line: string, k: nat, m: (nat, nat))
    requires IndexOf(line, ":") == Some(k) && line[..k] in Messages && IdSearch(line) == Some(m)
    ensures k <= m.0 < m.1 < |line|
    ensures ColoredAtMatch(line) == Ok(
      Code(Messages[line[..k]]) + line[..k] + Code(Reset) + ":" + line[k + 1..m.0 + 2] + Code(BrightWhite)
      + line[m.0 + 2..m.1 + 1] + Code(Reset) + line[m.1 + 1..])
  {
    MarkupWithId(line, k, m);
    var message := line[..k];
    IdLinePieces(Messages[message], message, line[k + 1..m.0 + 2], line[m.0 + 2..m.1 + 1], line[m.1 + 1..]);
  }

  /** Removing the escape sequences from such a line gives the line back. */
  lemma IdLineKeepsText(line: string, k: nat, m: (nat, nat))
    requires IndexOf(line, ":") == Some(k) && line[..k] in Messages && IdSearch(line) == Some(m)
    ensures Markup(line).Ok? && Plain(Markup(line).value) == line
  {
    MarkupWithId(line, k, m);
    FirstColon(line);
    var message := line[..k];
    IdLineText(Messages[message], message, line[k + 1..m.0 + 2], line[m.0 + 2..m.1 + 1], line[m.1 + 1..]);
    CutAtColonAndId(line, k, m.0 + 2, m.1 + 1);
  }

  // ---------------------------------------------------------------------
  // Lemmas: when the script's `replace` hits the right spot

  /** The coloured severity head holds no `]`. */
  lemma HeadHasNoBracket(message: string)
    requires message in Messages
    ensures ']' !in Code(Messages[message]) + message + Code(Reset) + ":"
  {
    KeyFacts(message);
    CodeHasNoBracket(Messages[message]);
    CodeHasNoBracket(Reset);
  }

  /** The matched ID text runs from `[` to the first `]` after it. */
  lemma IdTextShape(line: string, m0: nat, m1: nat)
    requires IdAt(line, m0, m1)
    ensures var e := line[m0 + 2..m1 + 1];
      |e| >= 2 && e[0] == '[' && e[|e| - 1] == ']' && forall d :: 0 <= d < |e| - 1 ==> e[d] != ']'
  {
    assert line[m0 + 2] == line[m0..m0 + 3][2];
  }

  /** A pattern whose only `]` is its last character is found first at `t`
      when it occurs at `t` and no `]` comes before `t`. */
  lemma FoundFirstAt(s: string, e: string, t: nat)
    requires OccursAt(s, e, t) && |e| >= 1 && e[|e| - 1] == ']'
    requires forall d :: 0 <= d < |e| - 1 ==> e[d] != ']'
    requires ']' !in s[..t]
    ensures IndexOf(s, e) == Some(t)
  {
    forall q: nat | q < t ensures !OccursAt(s, e, q) {
      if q + |e| <= |s| {
        var last := q + |e| - 1;
        if last < t {
          assert s[last] == s[..t][last];
        } else {
          assert s[last] == s[t..t + |e|][last - t];
        }
        assert s[q..q + |e|][|e| - 1] == s[last] != ']';
      }
    }
  }

  /** The script's `colored` on a message line with an ID, as far as the
      `replace`: it searches the coloured line for the ID text. */
  lemma ColoredReplaces(line: string, k: nat, m: (nat, nat), c: Colour, h: string)
    requires IndexOf(line, ":") == Some(k) && line[..k] in Messages && IdSearch(line) == Some(m)
    requires Messages[line[..k]] == c && h == Code(c) + line[..k] + Code(Reset) + ":"
    ensures var e := line[m.0 + 2..m.1 + 1];
      Colored(line) == Ok(Replace1(h + line[k + 1..], e, Code(BrightWhite) + e + Code(Reset)))
  {
  }

  /** Replacing the first occurrence of `e`, whose only `]` is its last
      character, in a string with no `]` before `e`. */
  lemma WrapFirst(h: string, x: string, e: string, z: string, open: string, close: string)
    requires ']' !in h + x && |e| >= 1 && e[|e| - 1] == ']'
    requires forall d :: 0 <= d < |e| - 1 ==> e[d] != ']'
    ensures Replace1(h + (x + e + z), e, open + e + close) == h + x + open + e + close + z
  {
    var s := h + (x + e + z);
    var t := |h| + |x|;
    assert s[..t] == h + x;
    assert s[t..t + |e|] == e;
    assert s[t + |e|..] == z;
    FoundFirstAt(s, e, t);
  }

  lemma BeforeIdHasNoBracket(line: string, k: nat, m0: nat, m1: nat)
    requires k <= m0 && IdAt(line, m0, m1) && ']' !in line[..m0]
    ensures ']' !in line[k + 1..m0 + 2]
  {
    var x := line[k + 1..m0 + 2];
    assert line[m0] == line[m0..m0 + 3][0] && line[m0 + 1] == line[m0..m0 + 3][1];
    forall i | 0 <= i < |x| ensures x[i] != ']' {
      if k + 1 + i < m0 { assert x[i] == line[..m0][k + 1 + i]; }
    }
  }

  /** The matched ID comes at or after the first colon. */
  lemma IdAfterColon(line: string, k: nat, m: (nat, nat))
    requires IndexOf(line, ":") == Some(k) && IdSearch(line) == Some(m)
    ensures k <= m.0 < m.1 < |line|
  {
    assert line[m.0] == line[m.0..m.0 + 3][0] == ':';
    assert OccursAt(line, ":", m.0) by {
      assert line[m.0..m.0 + 1] == [line[m.0]];
    }
  }

  /** When no `]` comes before the matched ID, replacing the first
      occurrence of the ID text in the coloured line hits the matched ID. */
  lemma ReplaceHitsMatch(line: string, k: nat, m: (nat, nat))
    requires IndexOf(line, ":") == Some(k) && line[..k] in Messages && IdSearch(line) == Some(m)
    requires ']' !in line[..m.0]
    ensures k <= m.0 < m.1 < |line|
    ensures var h := Code(Messages[line[..k]]) + line[..k] + Code(Reset) + ":";
      var e := line[m.0 + 2..m.1 + 1];
      Replace1(h + line[k + 1..], e, Code(BrightWhite) + e + Code(Reset))
      == h + line[k + 1..m.0 + 2] + Code(BrightWhite) + e + Code(Reset) + line[m.1 + 1..]
  {
    IdAfterColon(line, k, m);
    var message := line[..k];
    var h := Code(Messages[message]) + message + Code(Reset) + ":";
    var x, e, z := line[k + 1..m.0 + 2], line[m.0 + 2..m.1 + 1], line[m.1 + 1..];
    assert line[k + 1..] == x + e + z;
    HeadHasNoBracket(message);
    BeforeIdHasNoBracket(line, k, m.0, m.1);
    IdTextShape(line, m.0, m.1);
    WrapFirst(h, x, e, z, Code(BrightWhite), Code(Reset));
  }

  /** When no `]` comes before the matched ID, the script wraps the matched
      ID where the regex found it. */
  lemma ColoredWithId(line: string, k: nat, m: (nat, nat))
    requires IndexOf(line, ":") == Some(k) && line[..k] in Messages && IdSearch(line) == Some(m)
    requires ']' !in line[..m.0]
    ensures k <= m.0 < m.1 < |line|
    ensures Colored(line) == Ok(
      Code(Messages[line[..k]]) + line[..k] + Code(Reset) + ":" + line[k + 1..m.0 + 2] + Code(BrightWhite)
      + line[m.0 + 2..m.1 + 1] + Code(Reset) + line[m.1 + 1..])
  {
    var c := Messages[line[..k]];
    ColoredReplaces(line, k, m, c, Code(c) + line[..k] + Code(Reset) + ":");
    ReplaceHitsMatch(line, k, m);
  }

  /** The script and the corrected version agree on every line where no
      `]` comes before the matched ID: they raise the same error or write
      the same text. */
  lemma ColoredAgreesWithoutEarlierBracket(line: string)
    requires IdSearch(line).Some? ==> ']' !in line[..IdSearch(line).value.0]
    ensures Colored(line) == ColoredAtMatch(line)
  {
    match IndexOf(line, ":")
    case None => AgreeWithoutColon(line);
    case Some(k) =>
      if line[..k] !in Messages {
        AgreeOnUnknownSeverity(line, k);
      } else {
        AgreeOnMessage(line, k);
      }
  }

  lemma AgreeOnMessage(line: string, k: nat)
    requires IndexOf(line, ":") == Some(k) && line[..k] in Messages
    requires IdSearch(line).Some? ==> ']' !in line[..IdSearch(line).value.0]
    ensures Colored(line) == ColoredAtMatch(line)
  {
    match IdSearch(line)
    case None => PaintedWithoutId(line, k);
    case Some(m) => AgreeOnId(line, k, m);
  }

  lemma AgreeOnId(line: string, k: nat, m: (nat, nat))
    requires IndexOf(line, ":") == Some(k) && line[..k] in Messages && IdSearch(line) == Some(m)
    requires ']' !in line[..m.0]
    ensures Colored(line) == ColoredAtMatch(line)
  {
    ColoredWithId(line, k, m);
    PaintedWithId(line, k, m);
  }

  lemma AgreeWithoutColon(line: string)
    requires IndexOf(line, ":").None?
    ensures Colored(line) == ColoredAtMatch(line) == Err(NoColon)
  {
  }

  lemma AgreeOnUnknownSeverity(line: string, k: nat)
    requires IndexOf(line, ":") == Some(k) && line[..k] !in Messages
    ensures Colored(line) == ColoredAtMatch(line) == Err(UnknownSeverity(line[..k]))
  {
  }

  // ---------------------------------------------------------------------
  // Lemmas: where the regex match is

  /** The `]` that closes from `i` is unique. */
  lemma ClosesAtUnique(line: string, i: nat, j: nat, j': nat)
    requires ClosesAt(line, i, j) && ClosesAt(line, i, j')
    ensures j == j'
  {
  }

  /** A match at `p` with none further left is the one `search` returns. */
  lemma IdSearchFinds(line: string, p: nat, j: nat)
    requires IdAt(line, p, j)
    requires forall q: nat, j': nat :: q < p ==> !IdAt(line, q, j')
    ensures IdSearch(line) == Some((p, j))
  {
    var r := IdSearch(line);
    ClosesAtUnique(line, p + 3, j, r.value.1);
  }

  /** Where the split and the regex land on a `SEVERITY: [Id] text` line. */
  lemma VivadoLineSearch(key: string, id: string, text: string)
    requires key in Messages && ']' !in id && '\n' !in id
    ensures var line := key + ": [" + id + "]" + text;
      IndexOf(line, ":") == Some(|key|) && IdSearch(line) == Some((|key|, |key| + 3 + |id|))
  {
    var line := key + ": [" + id + "]" + text;
    var k, j := |key|, |key| + 3 + |id|;
    KeyFacts(key);
    assert line[..k] == key;
    ColonAt(line, k);
    assert line[k..k + 3] == ": [";
    assert ClosesAt(line, k + 3, j) by {
      forall x | k + 3 <= x < j ensures line[x] != ']' && line[x] != '\n' {
        assert line[x] == id[x - k - 3];
      }
    }
    forall q: nat, j': nat | q < k ensures !IdAt(line, q, j') {
      assert line[q] == key[q];
      if q + 3 <= |line| { assert line[q..q + 3][0] == line[q]; }
    }
    IdSearchFinds(line, k, j);
  }

  /** The usual Vivado line, `SEVERITY: [Id] text`: the script colours the
      severity word and the bracketed ID and leaves the rest as it was. */
  lemma ColoredVivadoLine(key: string, id: string, text: string)
    requires key in Messages && ']' !in id && '\n' !in id
    ensures Colored(key + ": [" + id + "]" + text)
      == Ok(Code(Messages[key]) + key + Code(Reset) + ":" + " "
            + Code(BrightWhite) + ("[" + id + "]") + Code(Reset) + text)
  {
    var line := key + ": [" + id + "]" + text;
    var k, j := |key|, |key| + 3 + |id|;
    VivadoLineSearch(key, id, text);
    KeyFacts(key);
    VivadoLinePieces(key, id, text);
    ColoredWithId(line, k, (k, j));
  }

  lemma VivadoLinePieces(key: string, id: string, text: string)
    ensures var line, k, j := key + ": [" + id + "]" + text, |key|, |key| + 3 + |id|;
      line[..k] == key && line[k + 1..k + 2] == " " && line[k + 2..j + 1] == "[" + id + "]" && line[j + 1..] == text
  {
    var line, k, j := key + ": [" + id + "]" + text, |key|, |key| + 3 + |id|;
    assert line == key + ": " + ("[" + id + "]") + text;
    assert line[..k] == key;
    assert line[k + 1..k + 2] == " ";
    assert line[k + 2..j + 1] == "[" + id + "]";
    assert line[j + 1..] == text;
  }

  // ---------------------------------------------------------------------
  // Lemmas: where the script's `replace` goes wrong

  /** A line whose message ID text also appears earlier in it. */
  predicate IsMisplacedLine(line: string) {
    line == "INFO: x [a] y: [a]"
  }

  lemma MisplacedLineSearch(line: string)
    requires IsMisplacedLine(line)
    ensures IndexOf(line, ":") == Some(4) && IdSearch(line) == Some((13, 17))
  {
    assert line[..4] == "INFO";
    ColonAt(line, 4);
    assert line[13..16] == ": [";
    assert ClosesAt(line, 16, 17);
    forall q: nat, j: nat | q < 13 ensures !IdAt(line, q, j) {
      assert q + 3 > |line| || line[q..q + 3][0] != ':' || line[q..q + 3][2] != '[';
    }
    IdSearchFinds(line, 13, 17);
  }

  lemma MisplacedLinePieces(line: string)
    requires IsMisplacedLine(line)
    ensures |line| == 18 && line[..4] == "INFO" && Messages[line[..4]] == Yellow
    ensures line[5..] == " x " + "[a]" + " y: [a]"
    ensures line[5..15] == " x [a] y: " && line[15..18] == "[a]" && line[18..] == ""
  {
  }

  /** The coloured severity word `INFO`. */
  function InfoHead(): (h: string)
    ensures ']' !in h
  {
    HeadHasNoBracket("INFO");
    Code(Yellow) + "INFO" + Code(Reset) + ":"
  }

  /** On `INFO: x [a] y: [a]` the regex matches the second `[a]`, but the
      script's `replace` wraps the first one, which is not the message ID. */
  lemma ColoredMisplacesId(line: string)
    requires IsMisplacedLine(line)
    ensures Colored(line) == Ok(InfoHead() + " x " + Code(BrightWhite) + "[a]" + Code(Reset) + " y: [a]")
  {
    MisplacedLineSearch(line);
    MisplacedLinePieces(line);
    var h := InfoHead();
    ColoredReplaces(line, 4, (13, 17), Yellow, h);
    WrapFirst(h, " x ", "[a]", " y: [a]", Code(BrightWhite), Code(Reset));
  }

  /** The corrected version wraps the second `[a]`, the one the regex
      matched. */
  lemma ColoredAtMatchPlacesId(line: string)
    requires IsMisplacedLine(line)
    ensures ColoredAtMatch(line) == Ok(InfoHead() + " x [a] y: " + Code(BrightWhite) + "[a]" + Code(Reset) + "")
  {
    MisplacedLineSearch(line);
    MisplacedLinePieces(line);
    PaintedWithId(line, 4, (13, 17));
  }

  /** So the two differ on this line. */
  lemma MisplacedLineDiffers(line: string)
    requires IsMisplacedLine(line)
    ensures IsMessage(line)
    ensures Colored(line) != ColoredAtMatch(line)
  {
    assert StartsWith(line, "INFO");
    ColoredMisplacesId(line);
    ColoredAtMatchPlacesId(line);
    WrappedCopiesDiffer(InfoHead());
  }

  lemma WrappedCopiesDiffer(h: string)
    ensures h + " x " + Code(BrightWhite) + "[a]" + Code(Reset) + " y: [a]"
      != h + " x [a] y: " + Code(BrightWhite) + "[a]" + Code(Reset) + ""
  {
    var one := h + " x " + Code(BrightWhite) + "[a]" + Code(Reset) + " y: [a]";
    var two := h + " x [a] y: " + Code(BrightWhite) + "[a]" + Code(Reset) + "";
    assert one[|h| + 3] == Code(BrightWhite)[0];
    assert two[|h| + 3] == '[';
  }

  /** A line whose ID text `[0m:]` also occurs in the coloured line, across
      the reset sequence and the colon written after the severity word. */
  predicate IsResetClashLine(line: string) {
    line == "INFO:]: [0m:]"
  }

  lemma ResetClashLineSearch(line: string)
    requires IsResetClashLine(line)
    ensures IndexOf(line, ":") == Some(4) && IdSearch(line) == Some((6, 12))
    ensures line[..4] == "INFO" && line[5..] == "]: [0m:]" && line[5..8] == "]: "
    ensures line[8..13] == "[0m:]" && line[13..] == ""
  {
    assert line[..4] == "INFO";
    ColonAt(line, 4);
    assert line[6..9] == ": [";
    assert ClosesAt(line, 9, 12);
    forall q: nat, j: nat | q < 6 ensures !IdAt(line, q, j) {
      assert line[q..q + 3][0] != ':' || line[q..q + 3][2] != '[';
    }
    IdSearchFinds(line, 6, 12);
  }

  /** On `INFO:]: [0m:]` the script's `replace` lands inside the reset
      sequence after `INFO`: the escape character is left alone and the
      bright-white code is written in the middle of the reset. */
  lemma ColoredSplitsReset(line: string)
    requires IsResetClashLine(line)
    ensures Colored(line) == Ok(Code(Yellow) + "INFO" + Esc + Code(BrightWhite) + "[0m:]" + Code(Reset) + ": [0m:]")
    ensures !StartsWith(Colored(line).value, Code(Yellow) + "INFO" + Code(Reset))
  {
    ResetClashLineSearch(line);
    var h, e, z := Code(Yellow) + "INFO" + Esc, "[0m:]", ": [0m:]";
    var open, close := Code(BrightWhite), Code(Reset);
    CodeHasNoBracket(Yellow);
    ColoredReplaces(line, 4, (6, 12), Yellow, InfoHead());
    assert InfoHead() + line[5..] == h + ("" + e + z);
    WrapFirst(h, "", e, z, open, close);
    assert h + "" + open + e + close + z == Code(Yellow) + "INFO" + Esc + open + e + close + z;
    var out := Colored(line).value;
    var n := |Code(Yellow)| + 5;
    assert out[n] == Code(BrightWhite)[0];
    assert (Code(Yellow) + "INFO" + Code(Reset))[n] == Code(Reset)[1];
  }

  /** The corrected version keeps the reset after `INFO` whole and wraps the
      ID it matched. */
  lemma ColoredAtMatchKeepsReset(line: string)
    requires IsResetClashLine(line)
    ensures ColoredAtMatch(line) == Ok(InfoHead() + "]: " + Code(BrightWhite) + "[0m:]" + Code(Reset) + "")
    ensures StartsWith(ColoredAtMatch(line).value, Code(Yellow) + "INFO" + Code(Reset))
  {
    ResetClashLineSearch(line);
    PaintedWithId(line, 4, (6, 12));
    var out := ColoredAtMatch(line).value;
    var pre := Code(Yellow) + "INFO" + Code(Reset);
    assert out[..|pre|] == pre;
  }

  // ---------------------------------------------------------------------
  // Lemmas: one line of `main`

  /** The corrected colouring loses nothing of the line. */
  lemma MarkupKeepsText(line: string)
    ensures Markup(line).Ok? ==> Plain(Markup(line).value) == line
  {
    if Markup(line).Ok? {
      var k := IndexOf(line, ":").value;
      match IdSearch(line)
      case None => NoIdLineKeepsText(line, k);
      case Some(m) => IdLineKeepsText(line, k, m);
    }
  }

  /** What `main` writes for a line is the line with escape sequences
      inserted, and nothing else. */
  lemma HighlightKeepsText(line: string)
    ensures Highlight(line).Ok? ==>
      exists ps :: Render(ps) == Highlight(line).value && Plain(ps) == line
  {
    if IsMessage(line) {
      if Markup(line).Ok? {
        MarkupKeepsText(line);
        var ps := Markup(line).value;
        assert Render(ps) == Highlight(line).value;
      }
    } else {
      RenderOne(Text(line));
      assert Render([Text(line)]) == line && Plain([Text(line)]) == line;
    }
  }

  /** `main` stops on a line exactly when the line is a message and
      `colored` raises on it; other lines are written unchanged. */
  lemma HighlightErrors(line: string)
    ensures Highlight(line).Err? <==> IsMessage(line) && Colored(line).Err?
    ensures Highlight(line).Err? ==> Highlight(line) == Colored(line)
    ensures !IsMessage(line) ==> Highlight(line) == Ok(line)
  {
    ColoredErrors(line);
  }

  /** Wherever no `]` comes before the matched ID of a message line, the
      model's `main` writes what the script writes. */
  lemma HighlightMatchesScript(line: string)
    requires IsMessage(line) && IdSearch(line).Some? ==> ']' !in line[..IdSearch(line).value.0]
    ensures Highlight(line) == if IsMessage(line) then Colored(line) else Ok(line)
  {
    if IsMessage(line) {
      ColoredAgreesWithoutEarlierBracket(line);
    }
  }
}
