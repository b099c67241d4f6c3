/** The converter as a whole (build-node.js:64-206): front matter is removed,
    then every pass runs over the whole text in the order the source lists
    them, the paragraph pass comes last, and empty paragraphs are deleted. */
module Markdown {
  import opened Text
  import opened Match
  import opened Scan
  import Lines
  import Blocks
  import Inline
  import opened Paragraphs

  /** `/^---[\s\S]*?---\n/` without the multiline flag: the block must open
      the text, and it ends at the first `---` and line feed after the three
      opening dashes (which may follow them directly). */
  function StripFrontMatter(s: string): (r: string)
    ensures !StartsWith(s, "---") ==> r == s
    ensures r == s || exists k: nat :: FirstAt(s, "---\n", 3, k) && r == s[k + 4..]
    ensures StartsWith(s, "---") && (exists k: nat | 3 <= k :: OccursAt(s, "---\n", k)) ==> |r| < |s|
  {
    if !StartsWith(s, "---") then s
    else match IndexOf(s, "---\n", 3)
      case None => s
      case Some(k) =>
        assert FirstAt(s, "---\n", 3, k);
        s[k + 4..]
  }

  /** A front matter block whose closing line is the first `---` and line
      feed in it goes, and the body after it stays untouched. */
  lemma FrontMatterRemoved(meta: string, body: string)
    requires !Contains(meta + "---", "---\n")
    ensures StripFrontMatter("---" + meta + "---\n" + body) == body
  {
    var m := meta + "---";
    var s := "---" + meta + "---\n" + body;
    var k := 3 + |meta|;
    assert s == "---" + m + "\n" + body;
    assert s[..3] == "---";
    assert s[k..k + 4] == "---\n";
    assert s[k + 4..] == body;
    forall j: nat | 3 <= j < k ensures !OccursAt(s, "---\n", j) {
      assert s[j..j + 4] == m[j - 3..j + 1];
      assert !OccursAt(m, "---\n", j - 3);
    }
    IndexOfIs(s, "---\n", 3, k);
  }

  /** Everything from the fenced code blocks to the horizontal rules
      (build-node.js:70-126), in the source's order. `markdown` is the
      original text, which the list pass consults. */
  function BlockPasses(markdown: string, s: string): string {
    var code := ReplaceAll(InlineCode, ReplaceAll(FencedCode, s));
    var inline := Inline.Emphasis(ReplaceAll(Link, Lines.Headings(code)));
    var tables := Blocks.TableWrap(Lines.MapLines(Lines.TableRow, inline));
    var items := Lines.MapLines(Lines.DashItem, Lines.MapLines(Lines.StarItem, Lines.MapLines(Lines.Numbered, tables)));
    var lists := Blocks.ListWrap(markdown, items);
    Lines.MapLines(Lines.StarRule, Lines.MapLines(Lines.DashRule, Lines.MapLines(Lines.QuoteLine, lists)))
  }

  /** The clean-up as written (build-node.js:202-203): each expression is
      applied once. */
  function CleanupOnce(s: string): (r: string)
    ensures |r| <= |s|
    ensures |r| == |s| ==> r == s && Clean(EmptyParagraph, s) && Clean(BlankParagraph, s)
  {
    var e := ReplaceAll(EmptyParagraph, s);
    DeletingShrinks(EmptyParagraph, s);
    DeletingShrinks(BlankParagraph, e);
    if |ReplaceAll(BlankParagraph, e)| == |s| then
      CleanUnchanged(EmptyParagraph, s);
      CleanUnchanged(BlankParagraph, s);
      ReplaceAll(BlankParagraph, e)
    else ReplaceAll(BlankParagraph, e)
  }

  /** The clean-up repeated until nothing changes: no empty paragraph is
      left, however the deletions nest. */
  function Cleanup(s: string): (r: string)
    ensures |r| <= |s|
    ensures Clean(EmptyParagraph, r) && Clean(BlankParagraph, r)
    decreases |s|
  {
    var t := CleanupOnce(s);
    if |t| == |s| then t else Cleanup(t)
  }

  /** The converter as written. */
  function MarkdownToHtmlAsWritten(markdown: string): string {
    CleanupOnce(Paragraphs.Paragraphs(AsWritten, BlockPasses(markdown, StripFrontMatter(markdown))))
  }

  /** The converter with the three findings repaired: the paragraph pass
      resets its flags after self-contained blocks, and the clean-up runs
      until nothing is left to delete. */
  function MarkdownToHtml(markdown: string): (html: string)
    ensures Clean(EmptyParagraph, html) && Clean(BlankParagraph, html)
  {
    Cleanup(Paragraphs.Paragraphs(Corrected, BlockPasses(markdown, StripFrontMatter(markdown))))
  }

  // ---------------------------------------------------------------------
  // The clean-up

  /** `<p></p>` is a blank paragraph with no white space in it. */
  lemma EmptyIsBlank(s: string)
    ensures MatchPrefix(EmptyParagraph, s).Some? ==> MatchPrefix(BlankParagraph, s).Some?
  {
    if StartsWith(s, "<p></p>") {
      assert s[..3] == "<p>";
      assert s[3] == '<';
      assert s[3..][..4] == "</p>";
    }
  }

  /** Every `<p>`, white space, `</p>` in the text is a match of `/<p>\s*<\/p>/`. */
  lemma BlankOccurrenceMatches(html: string, ws: string, k: nat)
    requires AllIn(Space, ws) && OccursAt(html, "<p>" + ws + "</p>", k)
    ensures k < |html| && MatchPrefix(BlankParagraph, html[k..]).Some?
  {
    var m := "<p>" + ws + "</p>";
    var t := html[k..];
    assert t[..|m|] == m;
    var e := 3 + |ws|;
    assert t[..3] == m[..3] == "<p>";
    assert t[3..e] == m[3..e] == ws;
    assert t[e..e + 4] == m[e..e + 4] == "</p>";
    BlankPrefix(t, ws, e);
  }

  lemma BlankPrefix(t: string, ws: string, e: nat)
    requires AllIn(Space, ws) && e == 3 + |ws| && e + 4 <= |t|
    requires t[..3] == "<p>" && t[3..e] == ws && t[e..e + 4] == "</p>"
    ensures MatchBlankParagraph(t).Some?
  {
    var u := t[3..];
    forall j | 0 <= j < |ws| ensures InClass(Space, u[j]) {
      assert u[j] == t[3..e][j];
    }
    assert u[|ws|] == t[e..e + 4][0];
    RunIs(u, Space, |ws|);
    assert t[e..][..4] == t[e..e + 4];
  }

  /** Text without a match of the blank-paragraph pattern holds no `<p>`
      and `</p>` with only white space (or nothing) between them. */
  lemma NoBlankParagraphs(html: string)
    requires Clean(BlankParagraph, html)
    ensures forall k: nat, ws | AllIn(Space, ws) :: !OccursAt(html, "<p>" + ws + "</p>", k)
  {
    forall k: nat, ws | AllIn(Space, ws) && OccursAt(html, "<p>" + ws + "</p>", k) ensures false {
      BlankOccurrenceMatches(html, ws, k);
    }
  }

  /** The repaired converter leaves no empty or white-space-only paragraph. */
  lemma OutputHasNoBlankParagraph(markdown: string)
    ensures forall k: nat, ws | AllIn(Space, ws) ::
      !OccursAt(MarkdownToHtml(markdown), "<p>" + ws + "</p>", k)
  {
    NoBlankParagraphs(MarkdownToHtml(markdown));
  }

  /** Once no blank paragraph is left the clean-up changes nothing. */
  lemma CleanIsFixed(s: string)
    requires Clean(BlankParagraph, s)
    ensures CleanupOnce(s) == s && Cleanup(s) == s
  {
    forall k | 0 <= k < |s| ensures MatchPrefix(EmptyParagraph, s[k..]).None? {
      EmptyIsBlank(s[k..]);
    }
    CleanUnchanged(EmptyParagraph, s);
    CleanUnchanged(BlankParagraph, s);
  }

  /** When one round leaves nothing to delete, the repeated clean-up is the
      clean-up as written. */
  lemma CleanupSettles(s: string)
    requires Clean(BlankParagraph, CleanupOnce(s))
    ensures Cleanup(s) == CleanupOnce(s)
  {
    CleanIsFixed(CleanupOnce(s));
  }

  /** The clean-up is idempotent. */
  lemma CleanupIdempotent(s: string)
    ensures Cleanup(Cleanup(s)) == Cleanup(s)
  {
    CleanIsFixed(Cleanup(s));
  }

  // A blank paragraph inside a paragraph: one round exposes another. The
  // lemmas take the text as a parameter equal to it, which keeps the
  // verifier from unfolding the passes over the literal.

  const Nested: string := "<p><p> </p></p>"

  lemma NestedPieces(n: string)
    requires n == Nested
    ensures n == "<p>" + "<p> </p>" + "</p>"
    ensures n[..3] == "<p>" && n[3..] == "<p> </p>" + "</p>"
  {
  }

  lemma NestedHasNoEmpty(n: string)
    requires n == Nested
    ensures Clean(EmptyParagraph, n)
  {
    forall k | 0 <= k < |n| ensures !StartsWith(n[k..], "<p></p>") {
      if k + 7 <= |n| {
        var w := n[k..][..7];
        assert w[3] == n[k + 3] && w[4] == n[k + 4];
        if k == 0 {
          assert w[4] == 'p';
        } else if k == 3 {
          assert w[3] == ' ';
        } else if k == 7 {
          assert w[3] == '>';
        } else {
          assert w[0] == n[k] != '<';
        }
      }
    }
  }

  lemma NoBlankAtStart(n: string)
    requires n == Nested
    ensures MatchPrefix(BlankParagraph, n).None?
  {
    assert n[..3] == "<p>";
    RunIs(n[3..], Space, 0);
    assert n[3..][..4][1] == 'p';
  }

  lemma BlankInner(s: string)
    requires s == "<p> </p>" + "</p>"
    ensures MatchPrefix(BlankParagraph, s) == Some(Hit(8, ""))
  {
    assert s[..3] == "<p>";
    RunIs(s[3..], Space, 1);
    assert s[4..][..4] == "</p>";
  }

  lemma ClosingTagKept(s: string)
    requires s == "</p>"
    ensures ReplaceAll(BlankParagraph, s) == s
  {
    forall k | 0 <= k < |s| ensures MatchPrefix(BlankParagraph, s[k..]).None? {
      if k == 0 {
        assert s[..3][1] == '/';
      } else {
        assert s[k..][0] != '<';
      }
    }
    CleanUnchanged(BlankParagraph, s);
  }

  lemma OpeningClean(n: string)
    requires n == Nested
    ensures forall k | 0 <= k < 3 :: MatchPrefix(BlankParagraph, (n[..3] + n[3..])[k..]).None?
  {
    NoBlankAtStart(n);
    assert n[..3] + n[3..] == n;
    assert n[1] == 'p' && n[2] == '>';
  }

  lemma SkipOpening(n: string)
    requires n == Nested
    ensures ReplaceAll(BlankParagraph, n) == n[..3] + ReplaceAll(BlankParagraph, n[3..])
  {
    var a, b := n[..3], n[3..];
    OpeningClean(n);
    SkipClean(BlankParagraph, a, b);
    assert a + b == n;
  }

  lemma DeleteInner(b: string, inner: string, close: string)
    requires inner == "<p> </p>" && close == "</p>" && b == inner + close
    ensures ReplaceAll(BlankParagraph, b) == close
  {
    BlankInner(b);
    HitFirst(BlankParagraph, inner, close, "");
    ClosingTagKept(close);
  }

  /** The blank-paragraph pass on the nested paragraph deletes the inner
      one only. */
  lemma BlankPassOnNested(n: string)
    requires n == Nested
    ensures ReplaceAll(BlankParagraph, n) == "<p>" + "</p>"
  {
    NestedPieces(n);
    SkipOpening(n);
    DeleteInner(n[3..], "<p> </p>", "</p>");
  }

  lemma EmptyGoes(t: string)
    requires t == "<p>" + "</p>"
    ensures CleanupOnce(t) == "" && Cleanup(t) == ""
    ensures !Clean(EmptyParagraph, t)
  {
    assert t[..7] == "<p></p>";
    assert MatchPrefix(EmptyParagraph, t) == Some(Hit(7, ""));
    assert t[0..] == t;
    assert t[7..] == "";
    var e := t[7..];
    assert ReplaceAll(EmptyParagraph, t) == ReplaceAll(EmptyParagraph, e) == e;
    assert CleanupOnce(e) == e;
    assert Cleanup(e) == e;
  }

  lemma OnceOnNested(n: string)
    requires n == Nested
    ensures CleanupOnce(n) == "<p>" + "</p>"
  {
    NestedHasNoEmpty(n);
    CleanUnchanged(EmptyParagraph, n);
    BlankPassOnNested(n);
  }

  /** The paragraph pass wraps a line holding a blank paragraph into a
      second paragraph (build-node.js:188-197), and the clean-up as written
      deletes the inner one and leaves an empty paragraph behind
      (build-node.js:202-203); the repeated clean-up deletes both. */
  lemma CleanupAsWrittenLeavesEmpty(n: string)
    requires n == Nested
    ensures CleanupOnce(n) == "<p>" + "</p>"
    ensures !Clean(EmptyParagraph, CleanupOnce(n))
    ensures Cleanup(n) == ""
  {
    OnceOnNested(n);
    var t := CleanupOnce(n);
    assert Cleanup(n) == Cleanup(t);
    EmptyGoes(t);
  }

  // ---------------------------------------------------------------------
  // Prose: text none of whose characters any pass looks for

  predicate ProseChar(c: char) {
    && c != '`' && c != '[' && c != '*' && c != '|' && c != '<'
    && c != '#' && c != '-' && c != '>' && !IsDigit(c)
  }

  predicate Prose(s: string) {
    forall i | 0 <= i < |s| :: ProseChar(s[i])
  }

  lemma CodeKeepsProse(s: string)
    requires Prose(s)
    ensures ReplaceAll(InlineCode, ReplaceAll(FencedCode, s)) == s
  {
    NoTriggerUnchanged(FencedCode, s);
    NoTriggerUnchanged(InlineCode, s);
  }

  lemma HeadingKeepsProse(k: nat, s: string)
    requires 1 <= k <= 4 && Prose(s)
    ensures Lines.MapLines(Lines.Heading(k), s) == s
  {
    var prefix := Lines.Hashes(k) + " ";
    assert prefix[0] == '#';
    Lines.MapLinesInert(Lines.Heading(k), s);
  }

  lemma InlineKeepsProse(s: string)
    requires Prose(s)
    ensures Inline.Emphasis(ReplaceAll(Link, Lines.Headings(s))) == s
  {
    HeadingKeepsProse(4, s);
    HeadingKeepsProse(3, s);
    HeadingKeepsProse(2, s);
    HeadingKeepsProse(1, s);
    NoTriggerUnchanged(Link, s);
    NoTriggerUnchanged(Bold, s);
    NoTriggerUnchanged(Italic, s);
  }

  lemma RulesKeepProse(s: string)
    requires Prose(s)
    ensures Lines.MapLines(Lines.TableRow, s) == s
    ensures Lines.MapLines(Lines.Numbered, s) == s
    ensures Lines.MapLines(Lines.StarItem, s) == s && Lines.MapLines(Lines.DashItem, s) == s
    ensures Lines.MapLines(Lines.QuoteLine, s) == s
    ensures Lines.MapLines(Lines.DashRule, s) == s && Lines.MapLines(Lines.StarRule, s) == s
  {
    Lines.MapLinesInert(Lines.TableRow, s);
    Lines.MapLinesInert(Lines.Numbered, s);
    Lines.MapLinesInert(Lines.StarItem, s);
    Lines.MapLinesInert(Lines.DashItem, s);
    Lines.MapLinesInert(Lines.QuoteLine, s);
    Lines.MapLinesInert(Lines.DashRule, s);
    Lines.MapLinesInert(Lines.StarRule, s);
  }

  /** Prose passes through every pass before the paragraph pass
      unchanged. */
  lemma BlockPassesKeepProse(markdown: string, s: string)
    requires Prose(s)
    ensures BlockPasses(markdown, s) == s
  {
    CodeKeepsProse(s);
    InlineKeepsProse(s);
    RulesKeepProse(s);
    AbsentFirstChar(s, "</tr>");
    AbsentFirstChar(s, "</li>");
  }

  /** The `<` at `k` starts a closing tag or a `<p>` followed by text. */
  predicate FilledAt(s: string, k: nat) {
    || (k + 1 < |s| && s[k + 1] == '/')
    || (k + 3 < |s| && s[k + 1] == 'p' && s[k + 2] == '>' && !IsSpace(s[k + 3]) && s[k + 3] != '<')
  }

  /** Every `<` starts a closing tag or a `<p>` followed by text: nothing
      for the clean-up to delete. */
  predicate TagsFilled(s: string) {
    forall k | 0 <= k < |s| && s[k] == '<' :: FilledAt(s, k)
  }

  lemma FilledClean(s: string)
    requires TagsFilled(s)
    ensures Clean(BlankParagraph, s)
  {
    forall k | 0 <= k < |s| ensures MatchPrefix(BlankParagraph, s[k..]).None? {
      var t := s[k..];
      if |t| >= 3 {
        if s[k] != '<' {
          assert t[..3][0] == s[k];
        } else if k + 1 < |s| && s[k + 1] == '/' {
          assert t[..3][1] == '/';
        } else {
          assert FilledAt(s, k);
          RunIs(t[3..], Space, 0);
          assert t[3..][0] == s[k + 3];
        }
      }
    }
  }

  /** What follows a `<` of `a` is the same in `a + b`. */
  lemma FilledLeft(a: string, b: string, k: nat)
    requires k < |a| && FilledAt(a, k)
    ensures FilledAt(a + b, k)
  {
    var s := a + b;
    if k + 1 < |a| && a[k + 1] == '/' {
      assert s[k + 1] == a[k + 1];
    } else {
      assert s[k + 1] == a[k + 1] && s[k + 2] == a[k + 2] && s[k + 3] == a[k + 3];
    }
  }

  /** What follows a `<` of `b` is the same in `a + b`. */
  lemma FilledRight(a: string, b: string, j: nat)
    requires j < |b| && FilledAt(b, j)
    ensures FilledAt(a + b, |a| + j)
  {
    var s, k := a + b, |a| + j;
    if j + 1 < |b| && b[j + 1] == '/' {
      assert s[k + 1] == b[j + 1];
    } else {
      assert s[k + 1] == b[j + 1] && s[k + 2] == b[j + 2] && s[k + 3] == b[j + 3];
    }
  }

  lemma TagsAppend(a: string, b: string)
    requires TagsFilled(a) && TagsFilled(b)
    ensures TagsFilled(a + b)
  {
    var s := a + b;
    forall k | 0 <= k < |s| && s[k] == '<' ensures FilledAt(s, k) {
      if k < |a| {
        assert a[k] == s[k];
        FilledLeft(a, b, k);
      } else {
        assert b[k - |a|] == s[k];
        FilledRight(a, b, k - |a|);
      }
    }
  }

  /** A paragraph of text that starts with a character other than white
      space and holds no `<`. */
  lemma ParagraphFilled(w: string)
    requires |w| > 0 && !IsSpace(w[0]) && AllIn(Other('<'), w)
    ensures TagsFilled("<p>" + w + "</p>")
  {
    var s := "<p>" + w + "</p>";
    var e := 3 + |w|;
    forall k | 0 <= k < |s| ensures s[k] == '<' ==> k == 0 || k == e {
      if 3 <= k < e {
        assert s[k] == w[k - 3];
      }
    }
    assert FilledAt(s, 0) by {
      assert s[3] == w[0];
    }
    assert FilledAt(s, e) by {
      assert s[e + 1] == '/';
    }
  }

  lemma {:induction false} JoinFilled(ps: seq<string>, sep: string)
    requires TagsFilled(sep) && forall i | 0 <= i < |ps| :: TagsFilled(ps[i])
    ensures TagsFilled(Join(ps, sep))
    decreases |ps|
  {
    if |ps| > 1 {
      JoinFilled(ps[1..], sep);
      TagsAppend(ps[0], sep);
      TagsAppend(ps[0] + sep, Join(ps[1..], sep));
    }
  }

  /** Words that each start with a character other than white space and
      hold no `<`, joined by spaces. */
  lemma {:induction false} JoinedWords(ws: seq<string>)
    requires |ws| > 0
    requires forall i | 0 <= i < |ws| :: |ws[i]| > 0 && !IsSpace(ws[i][0]) && AllIn(Other('<'), ws[i])
    ensures var j := Join(ws, " "); |j| > 0 && !IsSpace(j[0]) && AllIn(Other('<'), j)
    decreases |ws|
  {
    if |ws| > 1 {
      JoinedWords(ws[1..]);
      var j := ws[0] + " " + Join(ws[1..], " ");
      assert j[0] == ws[0][0];
      forall i | 0 <= i < |j| ensures j[i] != '<' {
        if i < |ws[0]| {
          assert j[i] == ws[0][i];
        } else if i > |ws[0]| {
          assert j[i] == Join(ws[1..], " ")[i - |ws[0]| - 1];
        }
      }
    }
  }

  /** Every reference paragraph of lines without `<` is filled. */
  lemma {:induction false} RefFilled(lines: seq<Line>)
    requires AllPlain(lines) && forall i | 0 <= i < |lines| :: PlainText(lines[i])
    ensures forall i | 0 <= i < |RefParagraphs(lines)| :: TagsFilled(RefParagraphs(lines)[i])
    decreases |lines|
  {
    var k := FirstBlank(lines);
    var chunk := lines[..k];
    var ws := Words(chunk);
    if k > 0 {
      WordsAre(chunk);
      forall i | 0 <= i < |ws| ensures |ws[i]| > 0 && !IsSpace(ws[i][0]) && AllIn(Other('<'), ws[i]) {
        assert chunk[i] == lines[i] && PlainText(lines[i]);
      }
      JoinedWords(ws);
      ParagraphFilled(Join(ws, " "));
    }
    if k < |lines| {
      var rest := lines[k + 1..];
      forall i | 0 <= i < |rest| ensures PlainLine(rest[i]) && PlainText(rest[i]) {
        assert rest[i] == lines[k + 1 + i];
      }
      RefFilled(rest);
    }
  }

  /** Prose has no front matter and passes through every pass before the
      paragraph pass unchanged. */
  lemma ProseReachesParagraphs(markdown: string)
    requires Prose(markdown)
    ensures BlockPasses(markdown, StripFrontMatter(markdown)) == markdown
  {
    if |markdown| >= 3 {
      assert markdown[..3][0] == markdown[0];
    }
    BlockPassesKeepProse(markdown, markdown);
  }

  /** The reference paragraphs of lines without `<`, joined by line feeds,
      leave nothing for the clean-up. */
  lemma RefParagraphsSettle(lines: seq<Line>)
    requires AllPlain(lines) && forall i | 0 <= i < |lines| :: PlainText(lines[i])
    ensures var j := Join(RefParagraphs(lines), "\n"); CleanupOnce(j) == j && Cleanup(j) == j
  {
    var ps := RefParagraphs(lines);
    RefFilled(lines);
    assert TagsFilled("\n");
    JoinFilled(ps, "\n");
    FilledClean(Join(ps, "\n"));
    CleanIsFixed(Join(ps, "\n"));
  }

  lemma ProseUntagged(s: string)
    requires Prose(s)
    ensures AllIn(Other('<'), s)
  {
    forall i | 0 <= i < |s| ensures InClass(Other('<'), s[i]) {
      assert ProseChar(s[i]);
    }
  }

  /** The two converters, given what reaches the paragraph pass. */
  lemma Converters(markdown: string, html: string)
    requires BlockPasses(markdown, StripFrontMatter(markdown)) == html
    ensures MarkdownToHtml(markdown) == Cleanup(Paragraphs.Paragraphs(Corrected, html))
    ensures MarkdownToHtmlAsWritten(markdown) == CleanupOnce(Paragraphs.Paragraphs(AsWritten, html))
  {
  }

  /** On prose both converters write out exactly the reference paragraphs
      of the text, and nothing is left for the clean-up. */
  lemma ProseRendered(markdown: string)
    requires Prose(markdown)
    ensures AllPlain(Classified(Split(markdown, '\n')))
    ensures MarkdownToHtml(markdown) == Join(RefParagraphs(Classified(Split(markdown, '\n'))), "\n")
    ensures MarkdownToHtmlAsWritten(markdown) == MarkdownToHtml(markdown)
  {
    ProseReachesParagraphs(markdown);
    Converters(markdown, markdown);
    ProseUntagged(markdown);
    UntaggedParagraphs(AsWritten, markdown);
    UntaggedParagraphs(Corrected, markdown);
    RefParagraphsSettle(Classified(Split(markdown, '\n')));
  }

  /** A line holding a blank paragraph becomes the nested paragraph the
      clean-up as written cannot fully delete. */
  lemma NestedFromLine(v: Variant, x: string)
    requires x == "<p> </p>"
    ensures Paragraphs.Paragraphs(v, x) == Nested
  {
    ClassifyBlankParagraph(x);
    OneTextLine(v, x);
    NestedPieces(Nested);
  }

  /** A character the passes before the paragraph pass do not start on,
      apart from `<` and `>`, and that is not the `t` of `</tr>` or the `l`
      of `</li>`. */
  predicate TagChar(c: char) {
    && c != '`' && c != '[' && c != '*' && c != '|' && c != '#' && c != '-'
    && !IsDigit(c) && c != 't' && c != 'l' && InClass(Dot, c)
  }

  /** The passes before the paragraph pass leave a line of such
      characters alone when it does not open with `>`. */
  lemma TagLinePasses(markdown: string, x: string)
    requires forall i | 0 <= i < |x| :: TagChar(x[i])
    requires |x| > 0 && x[0] != '>'
    ensures BlockPasses(markdown, x) == x
  {
    NoTriggerUnchanged(FencedCode, x);
    NoTriggerUnchanged(InlineCode, x);
    HeadingsLeave(x);
    NoTriggerUnchanged(Link, x);
    NoTriggerUnchanged(Bold, x);
    NoTriggerUnchanged(Italic, x);
    TagLineRules(x);
    AbsentChar(x, "</tr>", 2);
    AbsentChar(x, "</li>", 2);
  }

  lemma TagLineRules(x: string)
    requires forall i | 0 <= i < |x| :: TagChar(x[i])
    requires |x| > 0 && x[0] != '>'
    ensures Lines.MapLines(Lines.TableRow, x) == x
    ensures Lines.MapLines(Lines.Numbered, x) == x
    ensures Lines.MapLines(Lines.StarItem, x) == x && Lines.MapLines(Lines.DashItem, x) == x
    ensures Lines.MapLines(Lines.QuoteLine, x) == x
    ensures Lines.MapLines(Lines.DashRule, x) == x && Lines.MapLines(Lines.StarRule, x) == x
  {
    Lines.MapLinesInert(Lines.TableRow, x);
    Lines.MapLinesInert(Lines.Numbered, x);
    Lines.MapLinesInert(Lines.StarItem, x);
    Lines.MapLinesInert(Lines.DashItem, x);
    RunIs(x, Dot, |x|);
    Lines.MapLinesOne(Lines.QuoteLine, x);
    assert !StartsWith(x, "> ") by {
      if |x| >= 2 {
        assert x[..2][0] == x[0];
      }
    }
    Lines.MapLinesInert(Lines.DashRule, x);
    Lines.MapLinesInert(Lines.StarRule, x);
  }

  lemma HeadingsLeave(x: string)
    requires forall i | 0 <= i < |x| :: x[i] != '#'
    ensures Lines.Headings(x) == x
  {
    forall k | 1 <= k <= 4 ensures Lines.MapLines(Lines.Heading(k), x) == x {
      var prefix := Lines.Hashes(k) + " ";
      assert prefix[0] == '#';
      Lines.MapLinesInert(Lines.Heading(k), x);
    }
  }

  /** The converter as written on the one-line text `<p> </p>`: the
      paragraph pass wraps it into a second paragraph, and the single round
      of clean-up leaves the outer one behind empty. The repaired converter
      deletes both. */
  lemma AsWrittenLeavesEmpty(markdown: string)
    requires markdown == "<p> </p>"
    ensures MarkdownToHtmlAsWritten(markdown) == "<p>" + "</p>"
    ensures MarkdownToHtml(markdown) == ""
  {
    assert !StartsWith(markdown, "---") by { assert markdown[..3][0] == '<'; }
    TagLinePasses(markdown, markdown);
    NestedFromLine(AsWritten, markdown);
    NestedFromLine(Corrected, markdown);
    CleanupAsWrittenLeavesEmpty(Nested);
  }

  /** Where no line is a self-contained block and one round of clean-up
      leaves nothing behind, the converter as written and the repaired one
      agree. */
  lemma ConvertersAgree(markdown: string)
    requires NoSelfContained(Classified(Split(BlockPasses(markdown, StripFrontMatter(markdown)), '\n')))
    requires Clean(BlankParagraph, MarkdownToHtmlAsWritten(markdown))
    ensures MarkdownToHtml(markdown) == MarkdownToHtmlAsWritten(markdown)
  {
    var html := BlockPasses(markdown, StripFrontMatter(markdown));
    Converters(markdown, html);
    AgreeWithoutSelfContained(html);
    CleanupSettles(Paragraphs.Paragraphs(AsWritten, html));
  }
}
