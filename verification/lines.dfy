/** The passes of the converter that work line by line (build-node.js:87-90
    and 100-126): the headings, the list items, the block quotes and the
    horizontal rules are `/^…(.*$)/gm` and `/^…$/gm` replacements; the table
    rows are an unanchored `/\|(.+)\|/g`, whose match cannot cross a line end
    either, because `.` does not match a line terminator. */
module Lines {
  import opened Text

  /** One line-wise replacement. */
  datatype LineRule =
    | Prefixed(prefix: string, open: string, close: string) // /^prefix(.*$)/gm -> open$1close
    | Numbered                                              // /^\d+\. (.*$)/gm -> <li>$1</li>
    | Exact(line: string, out: string)                      // /^line$/gm       -> out
    | TableRow                                              // /\|(.+)\|/g with the cell callback

  /** `k` number signs. */
  function Hashes(k: nat): (r: string)
    ensures |r| == k && forall i | 0 <= i < k :: r[i] == '#'
  {
    seq(k, _ => '#')
  }

  function HeadingOpen(level: nat): string
    requires level < 10
  {
    "<h" + [DigitChar(level)] + ">"
  }

  function HeadingClose(level: nat): string
    requires level < 10
  {
    "</h" + [DigitChar(level)] + ">"
  }

  /** `/^#### (.*$)/gm` and its three shorter siblings. */
  function Heading(level: nat): LineRule
    requires level < 10
  {
    Prefixed(Hashes(level) + " ", HeadingOpen(level), HeadingClose(level))
  }
  const StarItem: LineRule := Prefixed("* ", "<li>", "</li>")
  const DashItem: LineRule := Prefixed("- ", "<li>", "</li>")
  const QuoteLine: LineRule := Prefixed("> ", "<blockquote>", "</blockquote>")
  const DashRule: LineRule := Exact("---", "<hr>")
  const StarRule: LineRule := Exact("***", "<hr>")

  /** A rule whose replacement text contains no line terminator. */
  predicate WellFormed(r: LineRule) {
    match r
    case Prefixed(_, open, close) => AllIn(Dot, open) && AllIn(Dot, close)
    case Exact(_, out) => AllIn(Dot, out)
    case _ => true
  }

  /** The rule applied to one line (text without a line terminator). */
  function ApplyRule(r: LineRule, line: string): (out: string)
    ensures WellFormed(r) && AllIn(Dot, line) ==> AllIn(Dot, out)
  {
    match r
    case Prefixed(prefix, open, close) =>
      if StartsWith(line, prefix) then
        DotAppend(open, line[|prefix|..]);
        DotAppend(open + line[|prefix|..], close);
        open + line[|prefix|..] + close
      else line
    case Numbered =>
      var n := Run(line, Digit);
      if n > 0 && StartsWith(line[n..], ". ") then
        DotAppend("<li>", line[n + 2..]);
        DotAppend("<li>" + line[n + 2..], "</li>");
        "<li>" + line[n + 2..] + "</li>"
      else line
    case Exact(l, out) => if line == l then out else line
    case TableRow => RowLine(line)
  }

  lemma DotAppend(a: string, b: string)
    ensures AllIn(Dot, a) && AllIn(Dot, b) ==> AllIn(Dot, a + b)
  {
    if AllIn(Dot, a) && AllIn(Dot, b) {
      forall i | 0 <= i < |a + b| ensures InClass(Dot, (a + b)[i]) {
        if i >= |a| {
          assert (a + b)[i] == b[i - |a|];
        }
      }
    }
  }

  /** The table-row pass on one line. The first `|` of the line opens the
      match and the greedy `.+` backs off to the last `|`, which must leave
      at least one character between them; if the first `|` has no partner
      no later one has, and nothing after the last `|` can match again. */
  function RowLine(line: string): (out: string)
    ensures AllIn(Dot, line) ==> AllIn(Dot, out)
  {
    match IndexOf(line, "|", 0)
    case None => line
    case Some(i) =>
      match Last(line, "|")
      case None => line
      case Some(j) =>
        if j >= i + 2 then
          SliceDot(line, i + 1, j);
          RowDot(line[i + 1..j]);
          SliceDot(line, 0, i);
          SliceDot(line, j + 1, |line|);
          DotAppend(line[..i], Row(line[i + 1..j]));
          DotAppend(line[..i] + Row(line[i + 1..j]), line[j + 1..]);
          line[..i] + Row(line[i + 1..j]) + line[j + 1..]
        else line
  }

  lemma SliceDot(s: string, i: nat, j: nat)
    requires i <= j <= |s|
    ensures AllIn(Dot, s) ==> AllIn(Dot, s[i..j])
  {
  }

  /** `<tr>` and one `<td>` per `|`-separated cell, each cell trimmed. */
  function Row(content: string): string {
    "<tr>" + Cells(Split(content, '|')) + "</tr>"
  }

  function Cells(cells: seq<string>): string {
    if |cells| == 0 then "" else Cell(cells[0]) + Cells(cells[1..])
  }

  function Cell(c: string): string {
    "<td>" + Trim(c) + "</td>"
  }

  lemma CellDot(c: string)
    requires AllIn(Dot, c)
    ensures AllIn(Dot, Cell(c))
  {
    TrimKeeps(c, Dot);
    DotAppend("<td>", Trim(c));
    DotAppend("<td>" + Trim(c), "</td>");
  }

  lemma RowDot(content: string)
    ensures AllIn(Dot, content) ==> AllIn(Dot, Row(content))
  {
    if AllIn(Dot, content) {
      SplitKeeps(content, '|', Dot);
      CellsDot(Split(content, '|'));
      DotAppend("<tr>", Cells(Split(content, '|')));
      DotAppend("<tr>" + Cells(Split(content, '|')), "</tr>");
    }
  }

  lemma {:induction false} CellsDot(cells: seq<string>)
    requires forall i | 0 <= i < |cells| :: AllIn(Dot, cells[i])
    ensures AllIn(Dot, Cells(cells))
    decreases |cells|
  {
    if |cells| > 0 {
      CellsDot(cells[1..]);
      CellDot(cells[0]);
      DotAppend(Cell(cells[0]), Cells(cells[1..]));
    }
  }

  /** The rule applied to every line of `s`, the line terminators kept. */
  function MapLines(r: LineRule, s: string): string
    decreases |s|
  {
    var n := Run(s, Dot);
    if n == |s| then ApplyRule(r, s)
    else ApplyRule(r, s[..n]) + [s[n]] + MapLines(r, s[n + 1..])
  }

  /** A character that cannot take part in a match of `r`. */
  predicate Inert(r: LineRule, c: char) {
    match r
    case Prefixed(prefix, _, _) => |prefix| > 0 && c != prefix[0]
    case Numbered => !IsDigit(c)
    case Exact(l, _) => |l| > 0 && c != l[0]
    case TableRow => c != '|'
  }

  /** A rule that needs at least one character to match. */
  predicate Anchored(r: LineRule) {
    match r
    case Prefixed(prefix, _, _) => |prefix| > 0
    case Exact(l, _) => |l| > 0
    case _ => true
  }

  lemma ApplyRuleInert(r: LineRule, line: string)
    requires Anchored(r) && forall i | 0 <= i < |line| :: Inert(r, line[i])
    ensures ApplyRule(r, line) == line
  {
    match r
    case Prefixed(prefix, _, _) =>
      if |prefix| <= |line| {
        assert line[..|prefix|][0] == line[0];
      }
    case Numbered =>
      RunIs(line, Digit, 0);
    case Exact(l, _) =>
      if |line| > 0 {
        assert line[0] != l[0];
      } else {
        assert |l| > 0;
      }
    case TableRow =>
      AbsentFirstChar(line, "|");
  }

  /** A text made of characters inert for `r` passes through unchanged. */
  lemma {:induction false} MapLinesInert(r: LineRule, s: string)
    requires Anchored(r) && forall i | 0 <= i < |s| :: Inert(r, s[i])
    ensures MapLines(r, s) == s
    decreases |s|
  {
    var n := Run(s, Dot);
    if n == |s| {
      ApplyRuleInert(r, s);
    } else {
      var line, rest := s[..n], s[n + 1..];
      assert s == line + [s[n]] + rest;
      InertSlice(r, s, n + 1);
      MapLinesInert(r, rest);
      InertStep(r, line, s[n], rest);
    }
  }

  lemma InertSlice(r: LineRule, s: string, k: nat)
    requires k <= |s| && forall i | 0 <= i < |s| :: Inert(r, s[i])
    ensures forall i | 0 <= i < k :: Inert(r, s[..k][i])
    ensures forall i | 0 <= i < |s| - k :: Inert(r, s[k..][i])
  {
  }

  lemma InertStep(r: LineRule, line: string, t: char, rest: string)
    requires Anchored(r) && AllIn(Dot, line) && IsLineTerminator(t)
    requires forall i | 0 <= i < |line| + 1 + |rest| :: Inert(r, (line + [t] + rest)[i])
    requires MapLines(r, rest) == rest
    ensures MapLines(r, line + [t] + rest) == line + [t] + rest
  {
    forall i | 0 <= i < |line| ensures Inert(r, line[i]) {
      assert line[i] == (line + [t] + rest)[i];
    }
    ApplyRuleInert(r, line);
    MapLinesLine(r, line, t, rest);
  }

  /** On text without a line terminator the pass is the rule itself. */
  lemma MapLinesOne(r: LineRule, line: string)
    requires AllIn(Dot, line)
    ensures MapLines(r, line) == ApplyRule(r, line)
  {
    RunIs(line, Dot, |line|);
  }

  /** The pass is local to lines: a line, its terminator and the rest of
      the text are rewritten independently. */
  lemma MapLinesLine(r: LineRule, line: string, t: char, rest: string)
    requires AllIn(Dot, line) && IsLineTerminator(t)
    ensures MapLines(r, line + [t] + rest) == ApplyRule(r, line) + [t] + MapLines(r, rest)
  {
    var s := line + [t] + rest;
    RunOf(line, [t] + rest, Dot);
    assert s == line + ([t] + rest);
    assert s[..|line|] == line;
    assert s[|line| + 1..] == rest;
  }

  /** The line terminators of a text, in order. */
  function Breaks(s: string): seq<char> {
    if |s| == 0 then []
    else (if IsLineTerminator(s[0]) then [s[0]] else []) + Breaks(s[1..])
  }

  lemma {:induction false} BreaksAppend(a: string, b: string)
    ensures Breaks(a + b) == Breaks(a) + Breaks(b)
    decreases |a|
  {
    if |a| > 0 {
      assert (a + b)[1..] == a[1..] + b;
      BreaksAppend(a[1..], b);
    } else {
      assert a + b == b;
    }
  }

  lemma {:induction false} BreaksNone(s: string)
    requires AllIn(Dot, s)
    ensures Breaks(s) == []
    decreases |s|
  {
    if |s| > 0 {
      BreaksNone(s[1..]);
    }
  }

  /** A line-wise pass keeps the line structure: the output has the same
      line terminators, in the same order, as the input. */
  lemma {:induction false} MapLinesKeepsBreaks(r: LineRule, s: string)
    requires WellFormed(r)
    ensures Breaks(MapLines(r, s)) == Breaks(s)
    decreases |s|
  {
    var n := Run(s, Dot);
    if n == |s| {
      BreaksNone(s);
      BreaksNone(ApplyRule(r, s));
    } else {
      var line, t, rest := s[..n], s[n], s[n + 1..];
      assert s == line + [t] + rest;
      MapLinesKeepsBreaks(r, rest);
      BreaksNone(line);
      BreaksNone(ApplyRule(r, line));
      BreaksAppend(ApplyRule(r, line) + [t], MapLines(r, rest));
      BreaksAppend(ApplyRule(r, line), [t]);
      BreaksAppend(line + [t], rest);
      BreaksAppend(line, [t]);
    }
  }

  /** A rule is stable when its output is never rewritten by it again. */
  ghost predicate Stable(r: LineRule) {
    forall line | AllIn(Dot, line) :: ApplyRule(r, ApplyRule(r, line)) == ApplyRule(r, line)
  }

  /** A stable rule makes its pass idempotent. */
  lemma {:induction false} MapLinesIdempotent(r: LineRule, s: string)
    requires WellFormed(r) && Stable(r)
    ensures MapLines(r, MapLines(r, s)) == MapLines(r, s)
    decreases |s|
  {
    var n := Run(s, Dot);
    if n == |s| {
      MapLinesOne(r, ApplyRule(r, s));
    } else {
      var line, t, rest := s[..n], s[n], s[n + 1..];
      assert s == line + [t] + rest;
      MapLinesLine(r, line, t, rest);
      MapLinesIdempotent(r, rest);
      IdempotentStep(r, line, t, MapLines(r, rest));
    }
  }

  lemma IdempotentStep(r: LineRule, line: string, t: char, m: string)
    requires WellFormed(r) && Stable(r) && AllIn(Dot, line) && IsLineTerminator(t)
    requires MapLines(r, m) == m
    ensures MapLines(r, ApplyRule(r, line) + [t] + m) == ApplyRule(r, line) + [t] + m
  {
    var a := ApplyRule(r, line);
    MapLinesLine(r, a, t, m);
    assert ApplyRule(r, a) == a;
  }

  /** A prefix rule whose opening tag does not begin with the prefix. */
  lemma PrefixedStable(prefix: string, open: string, close: string)
    requires |prefix| > 0 && |open| > 0 && open[0] != prefix[0]
    ensures Stable(Prefixed(prefix, open, close))
  {
    var r := Prefixed(prefix, open, close);
    forall line | AllIn(Dot, line) ensures ApplyRule(r, ApplyRule(r, line)) == ApplyRule(r, line) {
      var out := ApplyRule(r, line);
      if StartsWith(line, prefix) {
        assert out[0] == open[0];
        assert !StartsWith(out, prefix);
      }
    }
  }

  /** A rule rewriting one exact line into a different one. */
  lemma ExactStable(l: string, out: string)
    requires l != out
    ensures Stable(Exact(l, out))
  {
  }

  /** The heading, list-item, quote and rule passes are idempotent. */
  lemma PrefixedPassIdempotent(prefix: string, open: string, close: string, s: string)
    requires |prefix| > 0 && |open| > 0 && open[0] != prefix[0]
    requires AllIn(Dot, open) && AllIn(Dot, close)
    ensures var r := Prefixed(prefix, open, close);
      MapLines(r, MapLines(r, s)) == MapLines(r, s)
  {
    PrefixedStable(prefix, open, close);
    MapLinesIdempotent(Prefixed(prefix, open, close), s);
  }

  lemma ExactPassIdempotent(l: string, out: string, s: string)
    requires l != out && AllIn(Dot, out)
    ensures MapLines(Exact(l, out), MapLines(Exact(l, out), s)) == MapLines(Exact(l, out), s)
  {
    ExactStable(l, out);
    MapLinesIdempotent(Exact(l, out), s);
  }

  /** The four heading passes, `####` first. */
  function Headings(s: string): string {
    MapLines(Heading(1), MapLines(Heading(2), MapLines(Heading(3), MapLines(Heading(4), s))))
  }

  lemma NotPrefixAt(line: string, prefix: string, i: nat)
    requires i < |prefix| && i < |line| && line[i] != prefix[i]
    ensures !StartsWith(line, prefix)
  {
    if |prefix| <= |line| {
      assert line[..|prefix|][i] == line[i];
    }
  }

  lemma PrefixHit(prefix: string, open: string, close: string, x: string)
    ensures ApplyRule(Prefixed(prefix, open, close), prefix + x) == open + x + close
  {
    assert (prefix + x)[..|prefix|] == prefix;
    assert (prefix + x)[|prefix|..] == x;
  }

  /** A heading rule on a line of `k` number signs, a space and `x`: it
      fires exactly when the levels agree. */
  lemma HeadingRuleOn(j: nat, k: nat, x: string)
    requires 1 <= j <= 4 && 1 <= k
    ensures ApplyRule(Heading(j), Hashes(k) + " " + x)
         == if j == k then HeadingOpen(j) + x + HeadingClose(j) else Hashes(k) + " " + x
  {
    var line := Hashes(k) + " " + x;
    var prefix := Hashes(j) + " ";
    if j == k {
      assert line == prefix + x;
      PrefixHit(prefix, HeadingOpen(j), HeadingClose(j), x);
    } else if j < k {
      assert line[j] == '#' && prefix[j] == ' ';
      NotPrefixAt(line, prefix, j);
    } else {
      assert line[k] == ' ' && prefix[k] == '#';
      NotPrefixAt(line, prefix, k);
    }
  }

  /** A heading element is not rewritten by a heading rule again. */
  lemma HeadingRuleOnTag(j: nat, out: string)
    requires 1 <= j <= 4 && |out| > 0 && out[0] == '<'
    ensures ApplyRule(Heading(j), out) == out
  {
    NotPrefixAt(out, Hashes(j) + " ", 0);
  }

  /** The line as it stands before the heading pass for level `j` runs
      (the passes run from level 4 down to level 1). */
  function BeforePass(j: nat, k: nat, x: string): string {
    if j < k <= 4 then HeadingOpen(k) + x + HeadingClose(k) else Hashes(k) + " " + x
  }

  lemma HeadingPass(j: nat, k: nat, x: string)
    requires 1 <= j <= 4 && 1 <= k && AllIn(Dot, x)
    ensures MapLines(Heading(j), BeforePass(j, k, x)) == BeforePass(j - 1, k, x)
  {
    var line := BeforePass(j, k, x);
    DotAppend(Hashes(k), " ");
    DotAppend(Hashes(k) + " ", x);
    if k <= 4 {
      DotAppend(HeadingOpen(k), x);
      DotAppend(HeadingOpen(k) + x, HeadingClose(k));
    }
    MapLinesOne(Heading(j), line);
    if j < k <= 4 {
      HeadingRuleOnTag(j, line);
    } else {
      HeadingRuleOn(j, k, x);
    }
  }

  /** `#` to `####` followed by a space make a heading of that level; the
      passes for the other levels leave it alone. */
  lemma HeadingLine(k: nat, x: string)
    requires 1 <= k <= 4 && AllIn(Dot, x)
    ensures Headings(Hashes(k) + " " + x) == HeadingOpen(k) + x + HeadingClose(k)
  {
    HeadingPass(4, k, x);
    HeadingPass(3, k, x);
    HeadingPass(2, k, x);
    HeadingPass(1, k, x);
  }

  /** Five or more number signs make no heading. */
  lemma DeepHeadingIgnored(k: nat, x: string)
    requires 5 <= k && AllIn(Dot, x)
    ensures Headings(Hashes(k) + " " + x) == Hashes(k) + " " + x
  {
    HeadingPass(4, k, x);
    HeadingPass(3, k, x);
    HeadingPass(2, k, x);
    HeadingPass(1, k, x);
  }

  /** `d. x` becomes a list item for any run `d` of one or more decimal
      digits, leading zeros included. */
  lemma NumberedItem(d: string, x: string)
    requires |d| > 0 && AllIn(Digit, d)
    ensures ApplyRule(Numbered, d + ". " + x) == "<li>" + x + "</li>"
  {
    var line := d + ". " + x;
    assert line == d + (". " + x);
    RunOf(d, ". " + x, Digit);
    assert line[|d|..] == ". " + x;
    assert line[|d|..][..2] == ". ";
    assert line[|d| + 2..] == x;
  }

  /** A line `pre|c1|…|cn|post` whose cells hold no `|` becomes one table
      row with a trimmed cell per piece; the text around the bars stays. */
  lemma TableRowRendered(pre: string, cells: seq<string>, post: string)
    requires AllIn(Other('|'), pre) && AllIn(Other('|'), post)
    requires |cells| >= 1 && forall i | 0 <= i < |cells| :: AllIn(Other('|'), cells[i])
    requires |Join(cells, "|")| > 0
    ensures RowLine(pre + "|" + Join(cells, "|") + "|" + post)
         == pre + ("<tr>" + Cells(cells) + "</tr>") + post
  {
    var body := Join(cells, "|");
    BarsAround(pre, body, post);
    SplitJoin(cells, '|');
  }

  /** The row pass on a line with bars at the given places. */
  lemma BarsAround(pre: string, body: string, post: string)
    requires AllIn(Other('|'), pre) && AllIn(Other('|'), post) && |body| > 0
    ensures RowLine(pre + "|" + body + "|" + post) == pre + Row(body) + post
  {
    var line := pre + "|" + body + "|" + post;
    BarPieces(pre, body, post);
    FirstBar(line, pre, "|" + body + "|" + post);
    LastBar(line, pre + "|" + body, post);
    RowLineAt(line, |pre|, |pre| + 1 + |body|);
  }

  lemma RowLineAt(line: string, i: nat, j: nat)
    requires IndexOf(line, "|", 0) == Some(i) && Last(line, "|") == Some(j) && i + 2 <= j
    ensures RowLine(line) == line[..i] + Row(line[i + 1..j]) + line[j + 1..]
  {
  }

  lemma BarPieces(pre: string, body: string, post: string)
    ensures var line := pre + "|" + body + "|" + post;
      && line == pre + ("|" + body + "|" + post)
      && line[..|pre|] == pre
      && line[|pre| + 1..|pre| + 1 + |body|] == body
      && line[|pre| + 2 + |body|..] == post
  {
  }

  /** The first `|` after a bar-free prefix. */
  lemma FirstBar(line: string, pre: string, rest: string)
    requires line == pre + rest && AllIn(Other('|'), pre) && |rest| > 0 && rest[0] == '|'
    ensures IndexOf(line, "|", 0) == Some(|pre|)
  {
    assert line[|pre|..|pre| + 1] == "|";
    forall j: nat | j < |pre| ensures !OccursAt(line, "|", j) {
      assert line[j..j + 1][0] == pre[j];
    }
    IndexOfIs(line, "|", 0, |pre|);
  }

  /** The last `|` before a bar-free suffix. */
  lemma LastBar(line: string, front: string, post: string)
    requires line == front + "|" + post && AllIn(Other('|'), post)
    ensures Last(line, "|") == Some(|front|)
  {
    assert OccursAt(line, "|", |front|) by {
      assert line[|front|..|front| + 1] == "|";
    }
    forall j: nat | |front| < j ensures !OccursAt(line, "|", j) {
      if j < |line| {
        assert line[j..j + 1][0] == post[j - |front| - 1];
      }
    }
    assert Contains(line, "|");
  }
}
