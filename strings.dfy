/** The few Python `str` operations the three scripts rely on, as functions
    on `seq<char>`: `startswith`, `isspace`/`strip`, the whitespace `split()`,
    `split(sep)` on a one-character separator, `join`, `find` and
    `replace(old, new, 1)`; and the list helpers their results are compared
    with. */
module Strings {
  import opened Wrappers

  predicate StartsWith(s: string, prefix: string) {
    |prefix| <= |s| && s[..|prefix|] == prefix
  }

  /** Python's `str.isspace()` for one character. */
  predicate IsSpace(c: char) {
    var n := c as int;
    n == 32 || 9 <= n <= 13 || 28 <= n <= 31 || n == 0x85 || n == 0xA0
    || n == 0x1680 || 0x2000 <= n <= 0x200A || n == 0x2028 || n == 0x2029
    || n == 0x202F || n == 0x205F || n == 0x3000
  }

  /** `not s.strip()`: the string is empty or whitespace only. */
  predicate IsBlank(s: string) {
    forall i :: 0 <= i < |s| ==> IsSpace(s[i])
  }

  predicate NoSpace(s: string) {
    forall i :: 0 <= i < |s| ==> !IsSpace(s[i])
  }

  /** A token as `split()` produces it: non-empty, no whitespace. */
  predicate IsWord(w: string) {
    |w| > 0 && NoSpace(w)
  }

  /** Python's `s.split()` with no argument: the maximal runs of
      non-whitespace characters, in order. */
  function Words(s: string): (ws: seq<string>)
    ensures forall i :: 0 <= i < |ws| ==> IsWord(ws[i])
  {
    WordsFrom(s, [])
  }

  /** The scan behind `Words`: `cur` is the word being read when `s` begins. */
  function WordsFrom(s: string, cur: string): (ws: seq<string>)
    requires NoSpace(cur)
    ensures forall i :: 0 <= i < |ws| ==> IsWord(ws[i])
    decreases |s|
  {
    var done := if cur == [] then [] else [cur];
    if s == [] then done
    else if IsSpace(s[0]) then done + WordsFrom(s[1..], [])
    else WordsFrom(s[1..], cur + [s[0]])
  }

  /** The characters of `s` that are not whitespace, in order. */
  function NonSpace(s: string): string {
    if s == [] then [] else (if IsSpace(s[0]) then [] else [s[0]]) + NonSpace(s[1..])
  }

  function Concat<T>(ss: seq<seq<T>>): seq<T> {
    if ss == [] then [] else ss[0] + Concat(ss[1..])
  }

  function Repeat<T>(x: T, n: nat): (r: seq<T>)
    ensures |r| == n && forall i :: 0 <= i < n ==> r[i] == x
  {
    if n == 0 then [] else [x] + Repeat(x, n - 1)
  }

  /** The words of every string of `parts`, one after the other. */
  function AllWords(parts: seq<string>): seq<string> {
    if parts == [] then [] else Words(parts[0]) + AllWords(parts[1..])
  }

  /** Python's `s.split(c)`: the pieces between the occurrences of `c`. */
  function SplitOn(s: string, c: char): (parts: seq<string>)
    ensures |parts| >= 1
    ensures forall i :: 0 <= i < |parts| ==> c !in parts[i]
  {
    if s == [] then [""]
    else if s[0] == c then [""] + SplitOn(s[1..], c)
    else
      var rest := SplitOn(s[1..], c);
      [[s[0]] + rest[0]] + rest[1..]
  }

  /** Python's `sep.join(parts)`. */
  function Join(sep: string, parts: seq<string>): string {
    if parts == [] then ""
    else if |parts| == 1 then parts[0]
    else parts[0] + sep + Join(sep, parts[1..])
  }

  predicate OccursAt(s: string, pat: string, i: nat) {
    i + |pat| <= |s| && s[i..i + |pat|] == pat
  }

  /** Python's `s.find(pat)`, with `None` for -1: the leftmost occurrence. */
  function IndexOf(s: string, pat: string): (r: Option<nat>)
    ensures r.Some? ==> OccursAt(s, pat, r.value)
    ensures r.Some? ==> forall j :: 0 <= j < r.value ==> !OccursAt(s, pat, j)
    ensures r.None? ==> forall j: nat :: !OccursAt(s, pat, j)
  {
    IndexFrom(s, pat, 0)
  }

  function IndexFrom(s: string, pat: string, i: nat): (r: Option<nat>)
    requires i <= |s|
    ensures r.Some? ==> i <= r.value && OccursAt(s, pat, r.value)
    ensures r.Some? ==> forall j :: i <= j < r.value ==> !OccursAt(s, pat, j)
    ensures r.None? ==> forall j: nat :: i <= j ==> !OccursAt(s, pat, j)
    decreases |s| - i
  {
    if OccursAt(s, pat, i) then Some(i)
    else if i == |s| then None
    else IndexFrom(s, pat, i + 1)
  }

  /** Python's `s.replace(old, new, 1)`: only the leftmost occurrence. */
  function Replace1(s: string, target: string, replacement: string): string {
    match IndexOf(s, target)
    case None => s
    case Some(i) => s[..i] + replacement + s[i + |target|..]
  }

  // ---------------------------------------------------------------------
  // Whitespace split

  lemma {:induction false} WordsFromBlank(s: string, cur: string)
    requires NoSpace(cur)
    ensures WordsFrom(s, cur) == [] <==> cur == [] && IsBlank(s)
    decreases |s|
  {
    if s != [] {
      if IsSpace(s[0]) {
        WordsFromBlank(s[1..], []);
      } else {
        assert WordsFrom(s, cur) == WordsFrom(s[1..], cur + [s[0]]);
        WordsFromBlank(s[1..], cur + [s[0]]);
      }
    }
  }

  /** `not line.strip()` holds exactly when `line.split()` is empty. */
  lemma BlankIffNoWords(s: string)
    ensures IsBlank(s) <==> Words(s) == []
  {
    WordsFromBlank(s, []);
  }

  lemma {:induction false} WordsFromKeepNonSpace(s: string, cur: string)
    requires NoSpace(cur)
    ensures Concat(WordsFrom(s, cur)) == cur + NonSpace(s)
    decreases |s|
  {
    if s == [] {
    } else if IsSpace(s[0]) {
      var done := if cur == [] then [] else [cur];
      WordsFromKeepNonSpace(s[1..], []);
      ConcatAppend(done, WordsFrom(s[1..], []));
    } else {
      WordsFromKeepNonSpace(s[1..], cur + [s[0]]);
    }
  }

  /** `split()` drops whitespace and nothing else. */
  lemma WordsKeepNonSpace(s: string)
    ensures Concat(Words(s)) == NonSpace(s)
  {
    WordsFromKeepNonSpace(s, []);
  }

  lemma {:induction false} WordsFromSplitAtSpace(a: string, c: char, b: string, cur: string)
    requires IsSpace(c) && NoSpace(cur)
    ensures WordsFrom(a + [c] + b, cur) == WordsFrom(a, cur) + Words(b)
    decreases |a|
  {
    var s := a + [c] + b;
    if a == [] {
      assert s[0] == c && s[1..] == b;
    } else {
      assert s[0] == a[0] && s[1..] == a[1..] + [c] + b;
      if IsSpace(a[0]) {
        WordsFromSplitAtSpace(a[1..], c, b, []);
      } else {
        WordsFromSplitAtSpace(a[1..], c, b, cur + [a[0]]);
      }
    }
  }

  /** A whitespace character separates the words on its two sides. */
  lemma WordsSplitAtSpace(a: string, c: char, b: string)
    requires IsSpace(c)
    ensures Words(a + [c] + b) == Words(a) + Words(b)
  {
    WordsFromSplitAtSpace(a, c, b, []);
  }

  lemma {:induction false} WordsFromNoSpace(w: string, cur: string)
    requires NoSpace(w) && NoSpace(cur)
    ensures WordsFrom(w, cur) == if cur + w == [] then [] else [cur + w]
    decreases |w|
  {
    if w != [] {
      assert !IsSpace(w[0]);
      assert NoSpace(w[1..]) by { assert forall i :: 0 <= i < |w| - 1 ==> w[1..][i] == w[i + 1]; }
      assert NoSpace(cur + [w[0]]) by {
        assert forall i :: 0 <= i < |cur| ==> (cur + [w[0]])[i] == cur[i];
      }
      assert (cur + [w[0]]) + w[1..] == cur + w;
      WordsFromNoSpace(w[1..], cur + [w[0]]);
    } else {
      assert cur + w == cur;
    }
  }

  /** A single token splits into itself. */
  lemma WordsOfWord(w: string)
    requires IsWord(w)
    ensures Words(w) == [w]
  {
    WordsFromNoSpace(w, []);
    assert [] + w == w;
  }

  /** Joining with a whitespace separator and splitting on whitespace gives
      the words of each part, in order. */
  lemma {:induction false} WordsOfJoin(c: char, parts: seq<string>)
    requires IsSpace(c)
    ensures Words(Join([c], parts)) == AllWords(parts)
    decreases |parts|
  {
    if parts == [] {
      assert Words("") == [];
    } else if |parts| == 1 {
      assert AllWords(parts) == Words(parts[0]) + AllWords([]);
    } else {
      WordsSplitAtSpace(parts[0], c, Join([c], parts[1..]));
      WordsOfJoin(c, parts[1..]);
    }
  }

  lemma {:induction false} AllWordsRepeat(p: string, n: nat)
    ensures AllWords(Repeat(p, n)) == Concat(Repeat(Words(p), n))
  {
    if n > 0 {
      assert Repeat(p, n)[1..] == Repeat(p, n - 1);
      assert Repeat(Words(p), n)[1..] == Repeat(Words(p), n - 1);
      AllWordsRepeat(p, n - 1);
    }
  }

  // ---------------------------------------------------------------------
  // Sequences

  lemma {:induction false} ConcatAppend<T>(a: seq<seq<T>>, b: seq<seq<T>>)
    ensures Concat(a + b) == Concat(a) + Concat(b)
  {
    if a != [] {
      assert (a + b)[0] == a[0] && (a + b)[1..] == a[1..] + b;
      ConcatAppend(a[1..], b);
      calc {
        Concat(a + b);
        a[0] + Concat(a[1..] + b);
        a[0] + (Concat(a[1..]) + Concat(b));
        (a[0] + Concat(a[1..])) + Concat(b);
      }
    } else {
      assert a + b == b;
    }
  }

  /** `r` copies of `c` copies of `x`, concatenated, are `r * c` copies. */
  lemma {:induction false} ConcatRepeat<T>(x: T, c: nat, r: nat)
    ensures Concat(Repeat(Repeat(x, c), r)) == Repeat(x, r * c)
  {
    if r > 0 {
      assert Repeat(Repeat(x, c), r)[1..] == Repeat(Repeat(x, c), r - 1);
      ConcatRepeat(x, c, r - 1);
      assert r * c == c + (r - 1) * c;
    }
  }

  // ---------------------------------------------------------------------
  // split(c) and join

  lemma {:induction false} SplitOnNoSep(s: string, c: char)
    requires c !in s
    ensures SplitOn(s, c) == [s]
  {
    if s != [] {
      assert s[0] != c;
      assert c !in s[1..] by { assert forall i :: 0 <= i < |s| - 1 ==> s[1..][i] == s[i + 1]; }
      SplitOnNoSep(s[1..], c);
      assert [s[0]] + s[1..] == s;
    }
  }

  /** Splitting at the first separator, the part before it comes first. */
  lemma {:induction false} SplitOnFirstSep(a: string, c: char, b: string)
    requires c !in a
    ensures SplitOn(a + [c] + b, c) == [a] + SplitOn(b, c)
  {
    var s := a + [c] + b;
    if a == [] {
      assert s[0] == c && s[1..] == b;
    } else {
      assert s[0] == a[0] && s[1..] == a[1..] + [c] + b;
      assert c !in a[1..] by { assert forall i :: 0 <= i < |a| - 1 ==> a[1..][i] == a[i + 1]; }
      SplitOnFirstSep(a[1..], c, b);
      assert [a[0]] + a[1..] == a;
    }
  }

  /** `sep.join(s.split(sep)) == s`. */
  lemma {:induction false} JoinSplitOn(s: string, c: char)
    ensures Join([c], SplitOn(s, c)) == s
  {
    if s == [] {
    } else {
      JoinSplitOn(s[1..], c);
      var rest := SplitOn(s[1..], c);
      if s[0] == c {
        assert SplitOn(s, c) == [""] + rest;
        assert Join([c], [""] + rest) == "" + [c] + Join([c], rest) by {
          assert ([""] + rest)[1..] == rest;
        }
        assert s == [s[0]] + s[1..];
      } else {
        var parts := SplitOn(s, c);
        assert parts == [[s[0]] + rest[0]] + rest[1..];
        if |rest| == 1 {
          assert Join([c], rest) == rest[0];
          assert s == [s[0]] + s[1..];
        } else {
          assert Join([c], rest) == rest[0] + [c] + Join([c], rest[1..]);
          assert parts[1..] == rest[1..];
          assert s == [s[0]] + s[1..];
        }
      }
    }
  }

  /** `sep.join(parts).split(sep) == parts` when no part holds `sep`. */
  lemma {:induction false} SplitOnJoin(c: char, parts: seq<string>)
    requires |parts| >= 1
    requires forall i :: 0 <= i < |parts| ==> c !in parts[i]
    ensures SplitOn(Join([c], parts), c) == parts
  {
    if |parts| == 1 {
      SplitOnNoSep(parts[0], c);
    } else {
      SplitOnFirstSep(parts[0], c, Join([c], parts[1..]));
      SplitOnJoin(c, parts[1..]);
    }
  }

  lemma {:induction false} JoinSnoc(sep: string, parts: seq<string>, last: string)
    requires |parts| >= 1
    ensures Join(sep, parts + [last]) == Join(sep, parts) + sep + last
  {
    if |parts| == 1 {
      assert (parts + [last])[1..] == [last];
    } else {
      assert (parts + [last])[1..] == parts[1..] + [last];
      JoinSnoc(sep, parts[1..], last);
    }
  }

  /** The pieces of `s.split(c)` but the last, re-joined, are exactly the text
      before the last `c`. */
  lemma SplitOnDropLast(s: string, c: char)
    requires c in s
    ensures var parts := SplitOn(s, c);
      var stem := Join([c], parts[..|parts| - 1]);
      |stem| < |s| && s[..|stem|] == stem && s[|stem|] == c && c !in s[|stem| + 1..]
  {
    var parts := SplitOn(s, c);
    JoinSplitOn(s, c);
    if |parts| == 1 {
      assert false;
    }
    var init, last := parts[..|parts| - 1], parts[|parts| - 1];
    assert parts == init + [last];
    JoinSnoc([c], init, last);
    var stem := Join([c], init);
    assert s == stem + [c] + last;
    assert s[|stem| + 1..] == last;
    assert s[..|stem|] == stem;
  }

  // ---------------------------------------------------------------------
  // Leading whitespace and the first word

  /** Leading whitespace does not change what `split()` gives. */
  lemma {:induction false} WordsAfterBlank(ws: string, s: string)
    requires IsBlank(ws)
    ensures Words(ws + s) == Words(s)
    decreases |ws|
  {
    if ws != [] {
      assert ws + s == [] + [ws[0]] + (ws[1..] + s);
      WordsSplitAtSpace([], ws[0], ws[1..] + s);
      assert Words([]) == [];
      WordsAfterBlank(ws[1..], s);
    } else {
      assert ws + s == s;
    }
  }

  lemma {:induction false} WordsFromStart(t: string, cur: string)
    requires NoSpace(cur) && cur != []
    ensures |WordsFrom(t, cur)| >= 1 && WordsFrom(t, cur)[0][0] == cur[0]
    decreases |t|
  {
    if t != [] && !IsSpace(t[0]) {
      var next := cur + [t[0]];
      assert NoSpace(next) by {
        assert forall i :: 0 <= i < |cur| ==> next[i] == cur[i];
      }
      WordsFromStart(t[1..], next);
    }
  }

  /** A string that opens with a non-whitespace character has a first word,
      and that word opens with the same character. */
  lemma FirstWordStart(s: string)
    requires s != [] && !IsSpace(s[0])
    ensures |Words(s)| >= 1 && Words(s)[0][0] == s[0]
  {
    assert NoSpace([s[0]]);
    assert Words(s) == WordsFrom(s[1..], [s[0]]) by { assert [] + [s[0]] == [s[0]]; }
    WordsFromStart(s[1..], [s[0]]);
  }

  // ---------------------------------------------------------------------
  // The lines of a text file

  /** `for line in f` on a text whose line ends are `\n`: the text cut after
      every `\n`, each line keeping its newline; a last line without one is
      kept as it is. A `\r`, which Python's universal newlines also treat as
      a line end, is kept as an ordinary character. */
  function Lines(s: string): seq<string>
    decreases |s|
  {
    if s == [] then []
    else
      var e := LineLength(s);
      [s[..e]] + Lines(s[e..])
  }

  /** Reading a text line by line loses nothing: the lines, one after the
      other, are the text. */
  lemma {:induction false} LinesKeepText(s: string)
    ensures Concat(Lines(s)) == s
    decreases |s|
  {
    if s != [] {
      var e := LineLength(s);
      LinesKeepText(s[e..]);
      assert Lines(s) == [s[..e]] + Lines(s[e..]);
      assert s[..e] + s[e..] == s;
    }
  }

  /** The length of the first line of `s`, its `\n` included. */
  function LineLength(s: string): (e: nat)
    requires s != []
    ensures 1 <= e <= |s|
    decreases |s|
  {
    if s[0] == '\n' || |s| == 1 then 1 else 1 + LineLength(s[1..])
  }

  /** One complete line: a newline at its end and nowhere else. */
  predicate IsLine(l: string) {
    |l| >= 1 && l[|l| - 1] == '\n' && '\n' !in l[..|l| - 1]
  }

  predicate AllLines(ls: seq<string>) {
    forall i :: 0 <= i < |ls| ==> IsLine(ls[i])
  }

  /** Text without a newline, ended by one, is a line. */
  lemma EndedLine(body: string)
    requires '\n' !in body
    ensures IsLine(body + "\n")
  {
    assert (body + "\n")[..|body|] == body;
  }

  lemma {:induction false} LineLengthOfLine(l: string, b: string)
    requires IsLine(l)
    ensures LineLength(l + b) == |l|
    decreases |l|
  {
    if |l| > 1 {
      assert l[0] == l[..|l| - 1][0];
      assert (l + b)[1..] == l[1..] + b;
      assert l[1..][..|l| - 2] == l[1..|l| - 1];
      var mid := l[1..|l| - 1];
      assert '\n' !in mid by {
        forall i | 0 <= i < |mid| ensures mid[i] != '\n' {
          assert mid[i] == l[..|l| - 1][i + 1];
        }
      }
      LineLengthOfLine(l[1..], b);
    }
  }

  /** A complete line at the front of the text is the first line read. */
  lemma LinesCons(l: string, b: string)
    requires IsLine(l)
    ensures Lines(l + b) == [l] + Lines(b)
  {
    LineLengthOfLine(l, b);
    assert (l + b)[..|l|] == l && (l + b)[|l|..] == b;
  }

  /** Complete lines written one after the other are read back as those
      lines, whatever follows them. */
  lemma {:induction false} LinesOfConcat(ls: seq<string>, b: string)
    requires AllLines(ls)
    ensures Lines(Concat(ls) + b) == ls + Lines(b)
  {
    if ls == [] {
      assert Concat(ls) + b == b;
    } else {
      var first, more := ls[0], ls[1..];
      var rest := Concat(more) + b;
      assert Concat(ls) == first + Concat(more);
      assert Concat(ls) + b == first + rest;
      assert IsLine(first);
      assert AllLines(more) by {
        forall i | 0 <= i < |more| ensures IsLine(more[i]) {
          assert more[i] == ls[i + 1];
        }
      }
      LinesCons(first, rest);
      LinesOfConcat(more, b);
      calc {
        Lines(Concat(ls) + b);
        Lines(first + rest);
        [first] + (more + Lines(b));
        { assert ls == [first] + more; }
        ls + Lines(b);
      }
    }
  }

  /** So text made of complete lines reads back as exactly those lines. */
  lemma ReadBackLines(ls: seq<string>)
    requires AllLines(ls)
    ensures Lines(Concat(ls)) == ls
  {
    LinesOfConcat(ls, "");
    assert Concat(ls) + "" == Concat(ls);
  }

  lemma AllLinesAppend(a: seq<string>, b: seq<string>)
    requires AllLines(a) && AllLines(b)
    ensures AllLines(a + b)
  {
    forall i | 0 <= i < |a + b| ensures IsLine((a + b)[i]) {
      if i < |a| { assert (a + b)[i] == a[i]; } else { assert (a + b)[i] == b[i - |a|]; }
    }
  }

  /** `a` copies of `x` followed by `b` copies are `a + b` copies. */
  lemma RepeatAdd<T>(x: T, a: nat, b: nat)
    ensures Repeat(x, a) + Repeat(x, b) == Repeat(x, a + b)
  {
    var s := Repeat(x, a) + Repeat(x, b);
    assert forall i :: 0 <= i < a + b ==> s[i] == x;
  }
}
