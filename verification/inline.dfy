/** What the global passes of the converter do to the constructs they are
    written for: fenced code, inline code, links, bold and italic
    (build-node.js:72-97). */
module Inline {
  import opened Text
  import opened HtmlEscape
  import opened Match
  import opened Scan

  /** A prefix without the first character of any match of `p` is copied. */
  lemma SkipNoTrigger(p: Pattern, a: string, b: string)
    requires AllIn(Other(Trigger(p)), a)
    ensures ReplaceAll(p, a + b) == a + ReplaceAll(p, b)
  {
    forall k | 0 <= k < |a| ensures MatchPrefix(p, (a + b)[k..]).None? {
      assert (a + b)[k..][0] == a[k];
    }
    SkipClean(p, a, b);
  }

  /** No "\n```" starts inside the code or across its end. */
  lemma CloseIsFirst(s: string, c: nat, e: nat, f: nat, code: string)
    requires !Contains(code, "\n```")
    requires e == c + |code| && f == e + 4 && f <= |s|
    requires s[c..e] == code && s[e..f] == "\n```"
    ensures FirstAt(s, "\n```", c, e)
  {
    assert s[e] == s[e..f][0] == '\n';
    forall j: nat | c <= j < e ensures !OccursAt(s, "\n```", j) {
      if j + 4 <= e {
        SliceOfSlice(s, c, e, j - c, j - c + 4);
        assert !OccursAt(code, "\n```", j - c);
      }
    }
  }

  /** The code is followed by the first closing fence after its start. */
  lemma FirstClose(s: string, c: nat, e: nat, f: nat, code: string)
    requires !Contains(code, "\n```")
    requires e == c + |code| && f == e + 4 && f <= |s|
    requires s[c..e] == code && s[e..f] == "\n```"
    ensures IndexOf(s, "\n```", c) == Some(e)
  {
    CloseIsFirst(s, c, e, f, code);
    IndexOfIs(s, "\n```", c, e);
  }

  /** A code body the fence pattern hands over whole: it has a character
      other than white space, and no line feed comes before that character,
      so the greedy `\s*` cannot reach into it. */
  predicate CodeBody(code: string) {
    Run(code, Space) < |code| && forall j | 0 <= j < Run(code, Space) :: code[j] != '\n'
  }

  /** The fence matcher on a text laid out as a fence: three backquotes,
      the language up to `a`, white space ending in a line feed up to `b`,
      the code up to `e` and the closing fence up to `n`. */
  lemma FenceAt(s: string, lang: string, ws: string, code: string, a: nat, b: nat, e: nat, n: nat)
    requires AllIn(Word, lang) && CodeBody(code) && !Contains(code, "\n```")
    requires |ws| > 0 && AllIn(Space, ws) && ws[|ws| - 1] == '\n'
    requires a == 3 + |lang| && b == a + |ws| && e == b + |code| && n == e + 4 && n <= |s|
    requires s[..3] == "```" && s[3..a] == lang && s[a..b] == ws && s[b..e] == code
    requires s[e..n] == "\n```"
    ensures MatchPrefix(FencedCode, s) == Some(Hit(n, FenceBlock(lang, code)))
  {
    FenceWordRun(s, lang, ws, a, b);
    FenceSpaceRun(s, ws, code, a, b, e);
    FenceIndent(s, code, b, e);
    FirstClose(s, b, e, n, code);
    FenceFrom(s, lang, a, |ws|, Run(code, Space), b - 1, b, e, n, code);
  }

  /** The word run after the opening fence is the language. */
  lemma FenceWordRun(s: string, lang: string, ws: string, a: nat, b: nat)
    requires AllIn(Word, lang) && |ws| > 0 && AllIn(Space, ws)
    requires a == 3 + |lang| && b == a + |ws| && b <= |s|
    requires s[..3] == "```" && s[3..a] == lang && s[a..b] == ws
    ensures StartsWith(s, "```") && Run(s[3..], Word) == |lang|
  {
    var t := s[3..];
    forall j | 0 <= j < |lang| ensures InClass(Word, t[j]) {
      assert t[j] == s[3..a][j];
    }
    assert t[|lang|] == s[a..b][0];
    RunIs(t, Word, |lang|);
  }

  /** The white-space run after the language covers the white space up to
      the line feed and the indentation of the code's first line. */
  lemma FenceSpaceRun(s: string, ws: string, code: string, a: nat, b: nat, e: nat)
    requires CodeBody(code) && |ws| > 0 && AllIn(Space, ws) && ws[|ws| - 1] == '\n'
    requires b == a + |ws| && e == b + |code| && e <= |s|
    requires s[a..b] == ws && s[b..e] == code
    ensures s[b - 1] == '\n'
    ensures Run(s[a..], Space) == |ws| + Run(code, Space)
  {
    assert s[b - 1] == s[a..b][|ws| - 1];
    var t := s[a..];
    assert t[..|ws|] == s[a..b];
    assert t[|ws|..|ws| + |code|] == s[b..e];
    SpaceRunParts(t, ws, code);
  }

  /** White space followed by a code body: the run stops where the code's
      own leading run stops. */
  lemma SpaceRunParts(t: string, ws: string, code: string)
    requires CodeBody(code) && AllIn(Space, ws)
    requires |ws| + |code| <= |t| && t[..|ws|] == ws && t[|ws|..|ws| + |code|] == code
    ensures Run(t, Space) == |ws| + Run(code, Space)
  {
    forall j | 0 <= j < |ws| + Run(code, Space) ensures InClass(Space, t[j]) {
      if j < |ws| {
        assert t[j] == t[..|ws|][j];
      } else {
        assert t[j] == t[|ws|..|ws| + |code|][j - |ws|];
      }
    }
    assert t[|ws| + Run(code, Space)] == t[|ws|..|ws| + |code|][Run(code, Space)];
    RunIs(t, Space, |ws| + Run(code, Space));
  }

  /** The indentation of the code's first line holds no line feed. */
  lemma FenceIndent(s: string, code: string, b: nat, e: nat)
    requires CodeBody(code) && e == b + |code| && e <= |s| && s[b..e] == code
    ensures forall k | b <= k < b + Run(code, Space) :: s[k] != '\n'
  {
    forall k | b <= k < b + Run(code, Space) ensures s[k] != '\n' {
      assert s[k] == s[b..e][k - b];
    }
  }

  /** The fence matcher once the runs and the closing fence are known: the
      word run ends at `a`, the white-space run has `v + i` characters, the
      line feed at `d` ends its first `v`, the code runs from `c` to the
      first closing fence at `e`, and the match ends at `n`. */
  lemma FenceFrom(s: string, lang: string, a: nat, v: nat, i: nat, d: nat, c: nat, e: nat, n: nat, code: string)
    requires StartsWith(s, "```") && a == 3 + |lang| && 0 < v && d + 1 == c && c == a + v
    requires c <= e && n == e + 4 && n <= |s|
    requires Run(s[3..], Word) == |lang| && Run(s[a..], Space) == v + i
    requires s[d] == '\n' && forall k | c <= k < c + i :: s[k] != '\n'
    requires IndexOf(s, "\n```", c) == Some(e)
    requires s[3..a] == lang && s[c..e] == code
    ensures MatchPrefix(FencedCode, s) == Some(Hit(n, FenceBlock(lang, code)))
  {
    MatchFenceSkip(s, a, v + i, v, lang);
    assert TryNewline(s, a, v, lang) == Some(Hit(n, FenceBlock(lang, code))) by {
      TryNewlineAt(s, a, v, d, c, e, n, lang, code);
    }
  }

  /** The fence matcher once the word run and the white-space run are known. */
  lemma MatchFenceAt(s: string, a: nat, w: nat, lang: string)
    requires StartsWith(s, "```") && a == 3 + Run(s[3..], Word) && a <= |s|
    requires Run(s[a..], Space) == w && s[3..a] == lang
    ensures a + w <= |s|
    ensures MatchPrefix(FencedCode, s) == TryNewline(s, a, w, lang)
  {
    assert MatchPrefix(FencedCode, s) == MatchFence(s);
  }

  /** The fence matcher once the runs are known, with the white space after
      the last line feed in the run given back. */
  lemma MatchFenceSkip(s: string, a: nat, w: nat, v: nat, lang: string)
    requires StartsWith(s, "```") && a == 3 + Run(s[3..], Word) && a <= |s|
    requires Run(s[a..], Space) == w && s[3..a] == lang && v <= w
    requires forall k | a + v <= k < a + w :: s[k] != '\n'
    ensures MatchPrefix(FencedCode, s) == TryNewline(s, a, v, lang)
  {
    MatchFenceAt(s, a, w, lang);
    TryNewlineSkip(s, a, w, v, lang);
  }

  /** White space without a line feed at the end of the run is given back
      without a match being tried. */
  lemma {:induction false} TryNewlineSkip(s: string, a: nat, w: nat, v: nat, lang: string)
    requires 3 <= a && v <= w && a + w <= |s|
    requires forall k | a + v <= k < a + w :: s[k] != '\n'
    ensures TryNewline(s, a, w, lang) == TryNewline(s, a, v, lang)
    decreases w
  {
    if v < w {
      assert s[a + w - 1] != '\n';
      TryNewlineSkip(s, a, w - 1, v, lang);
    }
  }

  /** A line feed at `d`, ending the run taken, followed from `c` by the
      code up to the first closing fence at `e`; the match ends at `n`. */
  lemma TryNewlineAt(s: string, a: nat, w: nat, d: nat, c: nat, e: nat, n: nat, lang: string, code: string)
    requires 3 <= a && 0 < w && c == a + w && d + 1 == c && c <= e && n == e + 4 && n <= |s|
    requires s[d] == '\n' && IndexOf(s, "\n```", c) == Some(e) && s[c..e] == code
    ensures TryNewline(s, a, w, lang) == Some(Hit(n, FenceBlock(lang, code)))
  {
    assert s[a + w - 1] == '\n';
    assert IndexOf(s, "\n```", a + w) == Some(e);
    assert s[a + w..e] == code;
    assert e + 4 == n;
  }

  /** The fence matcher on a well-formed block: the language is the word
      after the opening fence, white space up to and including the last line
      feed before the code is dropped, and the code runs to the first
      closing fence. */
  lemma FenceMatches(lang: string, ws: string, code: string, rest: string)
    requires AllIn(Word, lang)
    requires |ws| > 0 && AllIn(Space, ws) && ws[|ws| - 1] == '\n'
    requires CodeBody(code) && !Contains(code, "\n```")
    ensures var head := "```" + lang + ws + code + "\n```";
      MatchPrefix(FencedCode, head + rest) == Some(Hit(|head|, FenceBlock(lang, code)))
  {
    FenceSlices(lang, ws, code, rest);
    FenceAt("```" + lang + ws + code + "\n```" + rest, lang, ws, code, 3 + |lang|, 3 + |lang| + |ws|,
            3 + |lang| + |ws| + |code|, |"```" + lang + ws + code + "\n```"|);
  }

  /** Where the parts of a fence lie in the text it starts. */
  lemma FenceSlices(lang: string, ws: string, code: string, rest: string)
    ensures var head := "```" + lang + ws + code + "\n```";
      var s := head + rest;
      && |head| == 3 + |lang| + |ws| + |code| + 4 && |head| <= |s|
      && s[..3] == "```" && s[3..3 + |lang|] == lang
      && s[3 + |lang|..3 + |lang| + |ws|] == ws
      && s[3 + |lang| + |ws|..3 + |lang| + |ws| + |code|] == code
      && s[3 + |lang| + |ws| + |code|..|head|] == "\n```"
  {
    var s := "```" + lang + ws + code + "\n```" + rest;
    var a := 3 + |lang|;
    var c := a + |ws|;
    var e := c + |code|;
    assert s[..3] == "```";
    assert s[3..a] == lang;
    assert s[a..c] == ws;
    assert s[c..e] == code;
    assert s[e..e + 4] == "\n```";
  }

  /** A fenced block becomes one `<pre><code>` element whose class names
      the language (`text` when the fence names none) and whose content is
      the code with `&`, `<`, `>`, `"` and `'` escaped. White space after the
      language, and blank lines before the code, are not part of it; the
      text after the block is scanned on. */
  lemma FenceRendersBlock(lang: string, ws: string, code: string, rest: string)
    requires AllIn(Word, lang)
    requires |ws| > 0 && AllIn(Space, ws) && ws[|ws| - 1] == '\n'
    requires CodeBody(code) && !Contains(code, "\n```")
    ensures ReplaceAll(FencedCode, "```" + lang + ws + code + "\n```" + rest)
         == "<pre><code class=\"language-" + (if |lang| == 0 then "text" else lang) + "\">"
            + EscapeHtml(code) + "</code></pre>" + ReplaceAll(FencedCode, rest)
  {
    var head := "```" + lang + ws + code + "\n```";
    FenceMatches(lang, ws, code, rest);
    HitFirst(FencedCode, head, rest, FenceBlock(lang, code));
    EscapeAsWrittenIsCharwise(code);
  }

  /** `d x d` for a body `x` free of the delimiter's first character. */
  lemma DelimitedMatches(d: string, open: string, close: string, x: string, rest: string)
    requires |d| > 0 && |x| > 0 && AllIn(Other(d[0]), x)
    ensures DelimitedSpan(d + x + d + rest, d, open, close)
         == Some(Hit(|d| + |x| + |d|, open + x + close))
  {
    var s := d + x + d + rest;
    assert s[..|d|] == d;
    assert s[|d|..] == x + (d + rest);
    RunOf(x, d + rest, Other(d[0]));
    assert s[|d|..|d| + |x|] == x;
    assert s[|d| + |x|..][..|d|] == d;
  }

  /** Inline code: `` `x` `` becomes `<code>x</code>`; the body is not escaped. */
  lemma InlineCodeRendered(x: string, rest: string)
    requires |x| > 0 && AllIn(Other('`'), x)
    ensures ReplaceAll(InlineCode, "`" + x + "`" + rest)
         == "<code>" + x + "</code>" + ReplaceAll(InlineCode, rest)
  {
    DelimitedMatches("`", "<code>", "</code>", x, rest);
    HitFirst(InlineCode, "`" + x + "`", rest, "<code>" + x + "</code>");
  }

  /** `[text](url)` becomes `<a href="url">text</a>`. */
  lemma LinkRendered(text: string, url: string, rest: string)
    requires |text| > 0 && AllIn(Other(']'), text)
    requires |url| > 0 && AllIn(Other(')'), url)
    ensures ReplaceAll(Link, "[" + text + "](" + url + ")" + rest)
         == "<a href=\"" + url + "\">" + text + "</a>" + ReplaceAll(Link, rest)
  {
    var head := "[" + text + "](" + url + ")";
    var s := head + rest;
    var b := 1 + |text|;
    assert s[1..] == text + ("](" + url + ")" + rest);
    RunOf(text, "](" + url + ")" + rest, Other(']'));
    assert s[b..][..2] == "](";
    assert s[b + 2..] == url + (")" + rest);
    RunOf(url, ")" + rest, Other(')'));
    assert s[b + 2..b + 2 + |url|] == url;
    assert s[1..b] == text;
    HitFirst(Link, head, rest, "<a href=\"" + url + "\">" + text + "</a>");
  }

  /** The emphasis passes in the converter's order: bold, then italic. */
  function Emphasis(s: string): string {
    ReplaceAll(Italic, ReplaceAll(Bold, s))
  }

  lemma Assoc(a: string, b: string, c: string)
    ensures a + (b + c) == (a + b) + c
  {
  }

  /** The bold pass on a span at the start of the text. */
  lemma BoldStep(x: string, b: string)
    requires |x| > 0 && AllIn(Other('*'), x)
    ensures ReplaceAll(Bold, "**" + x + "**" + b) == "<strong>" + x + "</strong>" + ReplaceAll(Bold, b)
  {
    DelimitedMatches("**", "<strong>", "</strong>", x, b);
    HitFirst(Bold, "**" + x + "**", b, "<strong>" + x + "</strong>");
  }

  /** A `<strong>` element around text without asterisks has none. */
  lemma StrongHasNoAsterisk(a: string, x: string)
    requires AllIn(Other('*'), a) && AllIn(Other('*'), x)
    ensures AllIn(Other('*'), a + ("<strong>" + x + "</strong>"))
  {
    var t := a + ("<strong>" + x + "</strong>");
    forall i | 0 <= i < |t| ensures t[i] != '*' {
      if |a| + 8 <= i < |a| + 8 + |x| {
        assert t[i] == x[i - |a| - 8];
      }
    }
  }

  /** `**x**` becomes `<strong>x</strong>` and the italic pass, running
      afterwards, finds no asterisk left in it to turn into `<em>`. */
  lemma BoldBeforeItalic(a: string, x: string, b: string)
    requires AllIn(Other('*'), a)
    requires |x| > 0 && AllIn(Other('*'), x)
    ensures Emphasis(a + ("**" + x + "**" + b)) == a + ("<strong>" + x + "</strong>") + Emphasis(b)
  {
    var strong := "<strong>" + x + "</strong>";
    var t := "**" + x + "**" + b;
    SkipNoTrigger(Bold, a, t);
    BoldStep(x, b);
    var bolded := ReplaceAll(Bold, b);
    Assoc(a, strong, bolded);
    StrongHasNoAsterisk(a, x);
    SkipNoTrigger(Italic, a + strong, bolded);
  }

  /** The italic pass copies the first of two asterisks. */
  lemma ItalicSkipsDoubled(t: string)
    requires |t| > 0 && t[0] == '*'
    ensures ReplaceAll(Italic, "*" + t) == "*" + ReplaceAll(Italic, t)
  {
    var s := "*" + t;
    assert s[1..] == t;
    assert s[1..][0] == '*';
    assert MatchPrefix(Italic, s).None?;
    CopyFirst(Italic, s);
  }

  /** Run alone, the italic pass would split a bold span: the reason bold
      goes first. */
  lemma ItalicAloneSplitsBold(x: string)
    requires |x| > 0 && AllIn(Other('*'), x)
    ensures ReplaceAll(Italic, "*" + ("*" + x + "*" + "*"))
         == "*" + ("<em>" + x + "</em>" + "*")
  {
    ItalicSkipsDoubled("*" + x + "*" + "*");
    DelimitedMatches("*", "<em>", "</em>", x, "*");
    HitFirst(Italic, "*" + x + "*", "*", "<em>" + x + "</em>");
    LoneStar();
  }

  /** A single asterisk is left as it is. */
  lemma LoneStar()
    ensures ReplaceAll(Italic, "*") == "*"
  {
    NoTriggerUnchanged(Italic, "*"[1..]);
    CopyFirst(Italic, "*");
  }

  /** Escaping leaves a bold span of plain text alone. */
  lemma PlainBold(x: string)
    requires Plain(x)
    ensures EscapeHtml("**" + x + "**") == "**" + x + "**"
  {
    assert Plain("**");
    PlainAppend("**", x);
    PlainAppend("**" + x, "**");
  }

  /** The opening tag of a fence that names no language. */
  lemma UnnamedFenceOpen()
    ensures FenceOpen("") == "<pre><code class=\"language-text\">"
    ensures AllIn(Other('*'), FenceOpen(""))
  {
  }

  /** A bold span between two texts without asterisks. */
  lemma BoldBetween(a: string, x: string, c: string)
    requires AllIn(Other('*'), a) && AllIn(Other('*'), c)
    requires |x| > 0 && AllIn(Other('*'), x)
    ensures Emphasis(a + ("**" + x + "**") + c) == a + ("<strong>" + x + "</strong>") + c
  {
    Assoc(a, "**" + x + "**", c);
    BoldBeforeItalic(a, x, c);
    NoTriggerUnchanged(Bold, c);
    NoTriggerUnchanged(Italic, c);
  }

  /** The emphasis passes run over the whole text, fenced code included:
      an escaped block still has its asterisks rewritten. */
  lemma BoldInsideFencedCode(x: string)
    requires |x| > 0 && AllIn(Other('*'), x)
    requires Plain(x)
    ensures Emphasis(FenceBlock("", "**" + x + "**"))
         == "<pre><code class=\"language-text\">" + ("<strong>" + x + "</strong>") + "</code></pre>"
  {
    PlainBold(x);
    EscapeAsWrittenIsCharwise("**" + x + "**");
    UnnamedFenceOpen();
    BoldBetween(FenceOpen(""), x, "</code></pre>");
  }
}
