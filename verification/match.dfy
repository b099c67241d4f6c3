/** The regular expressions the converter applies with the global flag, each
    as a matcher that decides whether a match starts at the beginning of a
    text, how long it is and what replaces it (build-node.js:72-97 and
    202-203). None of these expressions uses an anchor, so a match at index
    `k` of a text depends only on the text from `k` on. */
module Match {
  import opened Text
  import opened HtmlEscape

  /** A match at the start of a text: how many characters it spans and the
      replacement text. */
  datatype Hit = Hit(len: nat, out: string)

  datatype Pattern =
    | FencedCode      // /```(\w+)?\s*\n([\s\S]*?)\n```/g, with the escaping callback
    | InlineCode      // /`([^`]+)`/g           -> <code>$1</code>
    | Link            // /\[([^\]]+)\]\(([^\)]+)\)/g -> <a href="$2">$1</a>
    | Bold            // /\*\*([^*]+)\*\*/g     -> <strong>$1</strong>
    | Italic          // /\*([^*]+)\*/g         -> <em>$1</em>
    | EmptyParagraph  // /<p><\/p>/g            -> ''
    | BlankParagraph  // /<p>\s*<\/p>/g         -> ''

  /** The character every match of `p` begins with. */
  function Trigger(p: Pattern): char {
    match p
    case FencedCode => '`'
    case InlineCode => '`'
    case Link => '['
    case Bold => '*'
    case Italic => '*'
    case EmptyParagraph => '<'
    case BlankParagraph => '<'
  }

  /** Whether `p` matches at the start of `s`, and if so how. */
  function MatchPrefix(p: Pattern, s: string): (r: Option<Hit>)
    ensures r.Some? ==> 0 < r.value.len <= |s| && s[0] == Trigger(p)
  {
    match p
    case FencedCode => if StartsWith(s, "```") then MatchFence(s) else None
    case InlineCode => DelimitedSpan(s, "`", "<code>", "</code>")
    case Link => MatchLink(s)
    case Bold => DelimitedSpan(s, "**", "<strong>", "</strong>")
    case Italic => DelimitedSpan(s, "*", "<em>", "</em>")
    case EmptyParagraph => if StartsWith(s, "<p></p>") then Some(Hit(7, "")) else None
    case BlankParagraph => MatchBlankParagraph(s)
  }

  /** The element a fenced block becomes: a language class (`text` when the
      fence names none) and the code escaped by the five replacements. */
  function FenceBlock(lang: string, code: string): string {
    FenceOpen(lang) + EscapeAsWritten(code) + "</code></pre>"
  }

  function FenceOpen(lang: string): string {
    "<pre><code class=\"language-" + (if lang == "" then "text" else lang) + "\">"
  }

  /** A fence at the start of `s`. `(\w+)?` can only succeed with the whole
      run of word characters, since a shorter one leaves a word character
      where `\s*\n` must start; the `\s*` then gives back white space until it
      stops just before a line feed, trying the last line feed of the white
      space first, and the lazy body ends at the first "\n```" after it. */
  function MatchFence(s: string): (r: Option<Hit>)
    requires StartsWith(s, "```")
    ensures r.Some? ==> 8 <= r.value.len <= |s|
  {
    var a := 3 + Run(s[3..], Word);
    TryNewline(s, a, Run(s[a..], Space), s[3..a])
  }

  /** Tries the line feeds among `s[a..a + w]` as the end of `\s*\n`, last
      first; the code starts after the line feed. */
  function TryNewline(s: string, a: nat, w: nat, lang: string): (r: Option<Hit>)
    requires 3 <= a && a + w <= |s|
    ensures r.Some? ==> a + 5 <= r.value.len <= |s|
    decreases w
  {
    if w == 0 then None
    else if s[a + w - 1] == '\n' then
      match IndexOf(s, "\n```", a + w)
      case Some(k) => Some(Hit(k + 4, FenceBlock(lang, s[a + w..k])))
      case None => TryNewline(s, a, w - 1, lang)
    else TryNewline(s, a, w - 1, lang)
  }

  /** `d([^c]+)d` where `c` is the first character of the delimiter `d`:
      the greedy body stops at the first `c`, and a shorter body would leave
      a character other than `c` where the closing delimiter must start. */
  function DelimitedSpan(s: string, d: string, open: string, close: string): (r: Option<Hit>)
    requires |d| > 0
    ensures r.Some? ==> 2 * |d| < r.value.len <= |s| && s[0] == d[0]
  {
    if !StartsWith(s, d) then None
    else
      var n := Run(s[|d|..], Other(d[0]));
      if n > 0 && StartsWith(s[|d| + n..], d) then
        Some(Hit(|d| + n + |d|, open + s[|d|..|d| + n] + close))
      else None
  }

  /** `[text](url)` with a non-empty text free of `]` and a non-empty url
      free of `)`. */
  function MatchLink(s: string): (r: Option<Hit>)
    ensures r.Some? ==> 0 < r.value.len <= |s|
  {
    if |s| == 0 || s[0] != '[' then None
    else
      var b := 1 + Run(s[1..], Other(']'));
      if b == 1 || !StartsWith(s[b..], "](") then None
      else
        var e := b + 2 + Run(s[b + 2..], Other(')'));
        if e == b + 2 || e == |s| then None
        else Some(Hit(e + 1, "<a href=\"" + s[b + 2..e] + "\">" + s[1..b] + "</a>"))
  }

  /** `<p>\s*</p>`: the greedy white space must stop right before `</p>`. */
  function MatchBlankParagraph(s: string): (r: Option<Hit>)
    ensures r.Some? ==> 7 <= r.value.len <= |s| && r.value.out == ""
  {
    if !StartsWith(s, "<p>") then None
    else
      var n := Run(s[3..], Space);
      if StartsWith(s[3 + n..], "</p>") then Some(Hit(3 + n + 4, "")) else None
  }
}
