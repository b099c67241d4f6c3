# A verified model of the site builder's Markdown converter, section combiner and blog filters

The site builder (`build-node.js`) turns a directory of Markdown section
files into one document, and renders Markdown to HTML with a fixed chain of
regular-expression replacements followed by a line-by-line paragraph pass.
The blog page (`js/blog-filters.js`) filters the list of posts by topic,
type and media, reports how many posts are shown, and sorts the posts
latest first.

This project models those three pieces as pure Dafny functions and proves
what they do.

- `text.dfy` (module `Text`) covers the string primitives the JavaScript
  uses: `trim` with JavaScript's white-space set, `split`/`join`,
  `indexOf`/`lastIndexOf`, `includes`, and printing a number.
- `escape.dfy` (`HtmlEscape`) covers the five chained `replace` calls that
  escape code.
- `match.dfy` (`Match`) says, for each regular expression, what it matches
  at the start of a text. `scan.dfy` (`Scan`) turns that into a global
  (`/g`) replacement.
- `inline.dfy` (`Inline`) covers fenced code, inline code, links, bold and
  italic.
- `lines.dfy` (`Lines`) covers the line-anchored (`/gm`) rules: headings,
  list items, block quotes, horizontal rules and table rows.
- `blocks.dfy` (`Blocks`) covers the single table wrap and the single list
  wrap.
- `paragraphs.dfy` (`Paragraphs`) covers the paragraph state machine.
- `markdown.dfy` (`Markdown`) covers front-matter removal, the clean-up of
  empty paragraphs, and the whole converter.
- `sections.dfy` (`Sections`) covers `combineSections`: its filter, its sort
  and its concatenation.
- `blogfilters.dfy` (`BlogFilters`) covers the filter criteria, a click, the
  visibility pass, the result message, clearing the filters, and the
  latest-first sort.

Where the documented behaviour and the code disagree, the model follows
the code:

- Bold and italic are replaced inside fenced code, because the emphasis
  passes run over the whole text after the code blocks are built
  (`Inline.BoldInsideFencedCode`).
- Tables and lists are wrapped once each: the wrap runs from the first
  `<tr>`/`<li>` to the last `</tr>`/`</li>`, not per run of rows or items.
- A line that follows a heading, `<hr>` or other one-line block is left
  unwrapped, not put in a `<p>` (the second row under Findings).
- Rendering is not idempotent: a rendered paragraph line `<p>x</p>` is
  wrapped once more if it is rendered again (`Paragraphs.OneTextLine`).

The converter is modelled twice. `Markdown.MarkdownToHtmlAsWritten`
follows the code exactly. `Markdown.MarkdownToHtml` repairs the three
findings below, and `Markdown.ConvertersAgree` says when the two give the
same HTML. In the repaired paragraph pass only a block that continues on
later lines sets the block flag. A heading, rule or one-line block leaves
the flag as it was, so one that sits between the items of an open list or
the rows of an open table does not close it (`Paragraphs.OpenBlockVerbatim`).

## Model

| member | source | states |
|---|---|---|
| Text.Trim | build-node.js:136 | `trim` returns the line with its leading and trailing white space removed: a slice of the line with only white space before and after it, and no white space at either end. Its result is empty exactly when the line is all white space. A line with no white space at its ends is returned unchanged. |
| Text.TrimIdempotent | build-node.js:136 | Trimming a trimmed line changes nothing. |
| Text.Split | build-node.js:129 | Splitting on a character always gives at least one piece, and no piece contains the separator. |
| Text.JoinSplit | build-node.js:129 | Joining the pieces of `split('\n')` with a line feed gives back the original text. |
| Text.SplitJoin | build-node.js:199 | Splitting the `join('\n')` of separator-free lines gives back exactly those lines. |
| Text.IndexOf | build-node.js:72 | The position found is an occurrence, and it is the first one at or after the start position. No result means there is no occurrence from there on. |
| Text.Last | build-node.js:105 | The position found is the last occurrence of the pattern. No result means the pattern does not occur at all. |
| Text.NatToString | js/blog-filters.js:73-75 | A count prints as a non-empty string of decimal digits with no leading zero. |
| Text.ParsePrint | js/blog-filters.js:73-75 | Reading back the decimal digits of a printed count gives the count. |
| Match.MatchPrefix | build-node.js:72-97 | A match of any of the converter's patterns starts with that pattern's first character and consumes at least one and at most all of the input. |
| Match.MatchFence | build-node.js:72 | A fenced block match spans at least the two fences and a line feed. |
| Match.DelimitedSpan | build-node.js:84 | A backtick, bold or italic span consumes both delimiters and at least one character between them. |
| Match.MatchBlankParagraph | build-node.js:203 | A match of `<p>\s*</p>` consumes at least seven characters and replaces them with nothing. |
| Scan.SkipClean | build-node.js:72-97 | A global replacement copies a prefix where no match starts and carries on after it. |
| Scan.CleanUnchanged | build-node.js:202-203 | A global replacement changes nothing when no match starts anywhere in the text. |
| Scan.DeletingShrinks | build-node.js:202-203 | The clean-up passes never lengthen the HTML. They keep its length only when there was nothing to delete. |
| HtmlEscape.EscapeHtml | build-node.js:74-79 | Escaped code contains no raw `<`, `>`, `"` or `'`, is never shorter than the code, and code without any of `&<>"'` is unchanged. |
| HtmlEscape.EscapeAsWrittenIsCharwise | build-node.js:74-79 | The five chained replacements, in the source's order, equal escaping each character on its own. |
| HtmlEscape.ApplySingle | build-node.js:74-79 | Passes whose replacement entities never contain a later pass's target map one character to the entity of the first pass that targets it. |
| HtmlEscape.AmpersandMustComeFirst | build-node.js:75-76 | Replacing `&` after `<` would double-escape (`&amp;lt;`). With `&` first, as written, `<` becomes `&lt;`. |
| HtmlEscape.UnescapeEscape | build-node.js:74-79 | Escaping loses nothing: decoding the five entities gives back the original code. |
| Inline.FenceMatches | build-node.js:72 | A fence with a word-character language, white space ending in a line feed, code and a closing line-feed fence matches up to the first closing fence. The white space, blank lines included, is dropped; the code keeps its indentation. |
| Inline.FenceRendersBlock | build-node.js:72-81 | Such a fence becomes `<pre><code class="language-…">` with the escaped code, indentation included (`text` when no language is given), and the rest of the text is scanned after it. |
| Inline.InlineCodeRendered | build-node.js:84 | Backtick-delimited text without a backtick becomes a `<code>` element. |
| Inline.LinkRendered | build-node.js:93 | `[text](url)` becomes `<a href="url">text</a>`. |
| Inline.BoldBeforeItalic | build-node.js:96-97 | `**x**` becomes `<strong>x</strong>`, and the italic pass that follows does not touch it. |
| Inline.BoldBetween | build-node.js:96-97 | Between text free of asterisks, the bold span is the only change the emphasis passes make. |
| Inline.ItalicAloneSplitsBold | build-node.js:96-97 | Without the bold pass, the italic pattern would pair the inner asterisks of `**x**`. |
| Inline.BoldInsideFencedCode | build-node.js:72-97 | Asterisks in fenced code are turned into `<strong>` inside the `<pre>` block. |
| Lines.ApplyRule | build-node.js:87-126 | A line rule never introduces a line terminator into a line that had none. |
| Lines.MapLinesKeepsBreaks | build-node.js:87-126 | A `/gm` line rule keeps every line terminator of the text, in order. |
| Lines.MapLinesLine | build-node.js:87-126 | A `/gm` line rule rewrites each line on its own, independently of the lines after it. |
| Lines.MapLinesInert | build-node.js:87-126 | Text with no character that can start a rule's match passes through unchanged. |
| Lines.PrefixedPassIdempotent | build-node.js:87-122 | A prefix rule (heading, `*` or `-` list item, quote) whose output does not start with its prefix changes nothing when run a second time. |
| Lines.ExactPassIdempotent | build-node.js:125-126 | A horizontal rule pass changes nothing when run a second time. |
| Lines.HeadingLine | build-node.js:87-90 | After the four heading passes, a line of k hashes (1 ≤ k ≤ 4), a space and text becomes `<hk>text</hk>`. |
| Lines.DeepHeadingIgnored | build-node.js:87-90 | A line with five or more hashes passes through the heading passes unchanged. |
| Lines.NumberedItem | build-node.js:108 | A line starting with one or more decimal digits (leading zeros included), a dot and a space becomes a `<li>` item. |
| Lines.TableRowRendered | build-node.js:100-104 | A line with bars becomes one `<tr>` holding a `<td>` per trimmed cell between its first and last bar. Text outside those bars is kept. |
| Blocks.TableWrap | build-node.js:105 | HTML without a `</tr>` is left unchanged. |
| Blocks.TableWrapped | build-node.js:105 | One `<table>` wraps everything from the first `<tr>` to the last `</tr>`, including text between rows. |
| Blocks.ListWrap | build-node.js:113-119 | HTML without a `</li>` is left unchanged. |
| Blocks.ListWrapped | build-node.js:113-119 | Everything from the first `<li>` to the last `</li>`, with the white space after it, is wrapped once: in `<ol>…</ol>` exactly when the original Markdown contains `1. ` or `2. ` anywhere, in `<ul>…</ul>` otherwise. The text before and after is kept. |
| Paragraphs.Classified | build-node.js:135-181 | Each line is classified on its own, and the lines keep their order. |
| Paragraphs.Flush | build-node.js:141-143 | A pending paragraph yields exactly one line, which starts with `<p>` and ends with `</p>`. No pending text yields none. |
| Paragraphs.FoldKeepsOut | build-node.js:135-192 | The paragraph pass only appends to what it has already produced. |
| Paragraphs.CodeLinesVerbatim | build-node.js:153-156 | Inside a code block, every line is copied as it is, in order. |
| Paragraphs.CodeBlockVerbatim | build-node.js:139-156 | A multi-line `<pre>` block comes out line for line, and the pass leaves it outside code. |
| Paragraphs.PlainParagraphs | build-node.js:183-197 | On plain text lines, the pass equals an independent definition: each run of non-blank lines becomes one `<p>` of its trimmed lines joined by spaces. |
| Paragraphs.BlockAfterPlain | build-node.js:139-170 | A block opening after plain text first flushes the pending paragraph, then copies its own line. |
| Paragraphs.CorrectedRestarts | build-node.js:162-170 | In the corrected pass, paragraphs resume after a self-contained block line. |
| Paragraphs.VariantsAgree | build-node.js:135-192 | The two passes agree on every line sequence without a self-contained block line. |
| Paragraphs.AgreeWithoutSelfContained | build-node.js:129-199 | The two paragraph renderings agree on such HTML. |
| Paragraphs.UntaggedParagraphs | build-node.js:129-199 | HTML without any `<` is classified as plain text and blank lines only. Its paragraphs are exactly those of the independent definition, joined by line feeds. |
| Paragraphs.OneTextLine | build-node.js:189-199 | A single text line, even one that is already `<p>x</p>`, becomes `<p>` + line + `</p>`. |
| Paragraphs.OneLinePreSwallowsText | build-node.js:139-156 | As written, a one-line `<pre>…</pre>` leaves the following text unwrapped. The corrected pass wraps it. |
| Paragraphs.HeadingSwallowsText | build-node.js:162-181 | As written, a heading line leaves the following paragraph unwrapped. The corrected pass wraps it. |
| Paragraphs.WrappedCorrected | build-node.js:162-181 | In the corrected pass, a self-contained block line, a blank line and a text line give the block line and then the text in one `<p>`. |
| Paragraphs.OpenBlockVerbatim | build-node.js:162-181 | Inside an open list, table or quote, both passes copy every line except a closing one unchanged, and the block stays open. A heading, rule or one-line block among the items does not close it. |
| Paragraphs.OpenBlockAgrees | build-node.js:162-181 | On the lines of an open block, the as-written and corrected passes reach the same output, pending text and block flag. |
| Paragraphs.BlockVerbatim | build-node.js:135-181 | A block that opens on one line and closes on a later one comes out line for line in both passes, whatever block lines lie between. |
| Paragraphs.HeadingInsideList | build-node.js:135-181 | A heading, a list's opening line, a second heading, an item and the list's closing line are all copied unchanged by both passes, so the item stays inside the list. |
| Markdown.StripFrontMatter | build-node.js:68 | Text not starting with `---` is unchanged. Otherwise, when a `---` and line feed occurs at or after index 3, the result is the text after the first such occurrence. When none occurs the text is unchanged. |
| Markdown.FrontMatterRemoved | build-node.js:68 | A front matter block closed by its first `---` line is removed, and the body after it is untouched. |
| Markdown.CleanupOnce | build-node.js:202-203 | The clean-up as written never lengthens the HTML, and it changes nothing when there is no empty paragraph. |
| Markdown.Cleanup | build-node.js:202-203 | The repeated clean-up leaves no `<p></p>` and no white-space-only paragraph. |
| Markdown.NoBlankParagraphs | build-node.js:202-203 | Text the blank-paragraph pattern does not match anywhere contains no `<p>`, white space (or nothing), `</p>` at any index. |
| Markdown.CleanIsFixed | build-node.js:202-203 | HTML without empty paragraphs passes both clean-ups unchanged. |
| Markdown.CleanupIdempotent | build-node.js:202-203 | Cleaning up twice is the same as cleaning up once. |
| Markdown.CleanupAsWrittenLeavesEmpty | build-node.js:202-203 | The single clean-up turns `<p><p> </p></p>` into `<p></p>`, an empty paragraph. The repeated clean-up removes it. |
| Markdown.NestedFromLine | build-node.js:184-199 | The text line `<p> </p>` is wrapped into exactly that nested input. |
| Markdown.BlockPassesKeepProse | build-node.js:70-126 | Prose (no markup characters and no line a rule anchors on) passes every replacement before the paragraph pass unchanged. |
| Markdown.AsWrittenLeavesEmpty | build-node.js:64-206 | The converter as written turns the Markdown `<p> </p>` into the empty paragraph `<p></p>`. The corrected converter turns it into nothing. |
| Markdown.MarkdownToHtml | build-node.js:64-206 | The corrected converter (the three findings repaired): its output matches neither clean-up pattern anywhere. |
| Markdown.OutputHasNoBlankParagraph | build-node.js:64-206 | The corrected converter's output contains no `<p>`, white space (or nothing), `</p>` at any index. |
| Markdown.ProseRendered | build-node.js:64-206 | Prose renders as its paragraphs, each run of non-blank lines as one `<p>`, joined by line feeds. The as-written and corrected converters agree on it. |
| Markdown.ConvertersAgree | build-node.js:64-206 | Without self-contained block lines, and when the single clean-up suffices, the corrected converter gives exactly the as-written HTML. |
| Sections.Header | build-node.js:454-474 | The combined document opens a `---` front matter block and closes it with `---` and a blank line. |
| Sections.MarkdownFiles | build-node.js:478-479 | Exactly the listed entries whose name ends in `.md` are kept. None are kept exactly when no entry is Markdown. |
| Sections.MarkdownFilesDropOnly | build-node.js:478-479 | The filter only drops entries: the result is a sub-multiset of the listing. |
| Sections.NameLeTotal | build-node.js:480 | Any two names are comparable in the sort's order. |
| Sections.NameLeTrans | build-node.js:480 | The sort's order is transitive. |
| Sections.NameLeAntisymmetric | build-node.js:480 | Two names that sort both ways are equal. |
| Sections.Insert | build-node.js:480 | Inserting into a sorted list keeps it sorted and adds exactly the one entry. |
| Sections.SortByName | build-node.js:480 | The sort returns a permutation of its input, ordered by name. |
| Sections.SortedUnique | build-node.js:478-480 | With distinct names there is only one sorted permutation, so the order of sections is fully determined. |
| Sections.StripSeparator | build-node.js:501 | A trailing `---` line and blank line is removed once. Anything else is left alone. |
| Sections.AppendedJoins | build-node.js:489-501 | Appending each section between line feeds followed by `---` and a blank line equals joining the sections with that separator, plus one trailing separator. |
| Sections.Concatenate | build-node.js:489-501 | The loop builds the header followed by the sections joined by the separator, without the last separator. |
| Sections.CombineSections | build-node.js:446-501 | There is no combined document exactly when no listed file is Markdown. Otherwise the document is the header plus the Markdown files sorted by name and joined by the separator. |
| BlogFilters.MatchesEveryDimension | js/blog-filters.js:44-48 | A post is shown exactly when, for each of topic, type and media, the criterion is `all` or equals the post's value. |
| BlogFilters.DimensionNamed | js/blog-filters.js:2-6 | The button names `topic`, `type` and `media`, and only those, select the three criteria. |
| BlogFilters.Click | js/blog-filters.js:17-27 | A click sets the named criterion to the button's value. The other criteria are unchanged, and an unknown name changes nothing. |
| BlogFilters.ClickAll | js/blog-filters.js:27-48 | After choosing `all` for one dimension, a post is shown exactly when it passes the other two. |
| BlogFilters.CountExtremes | js/blog-filters.js:37-64 | No post matches exactly when the count is 0, and every post matches exactly when the count is the number of posts. |
| BlogFilters.ShowMatching | js/blog-filters.js:39-54 | Each post is shown exactly when it matches, and the count is the number of matching posts. |
| BlogFilters.ApplyFilters | js/blog-filters.js:35-65 | Visibility matches the criteria and the message reports the count. The no-results notice shows exactly when no post matches. |
| BlogFilters.ResultMessage | js/blog-filters.js:72-76 | The message reads "Showing … posts, sorted by latest", and it says "all" exactly when every post is shown. |
| BlogFilters.UpdateResultCount | js/blog-filters.js:67-77 | Without a count the message is exactly `Showing all <total> posts, sorted by latest`. With a count it gives that count's message. |
| BlogFilters.ReadMessage | js/blog-filters.js:67-77 | The message loses nothing: the shown and total counts can be read back from it. |
| BlogFilters.ClearAllFilters | js/blog-filters.js:79-97 | After clearing, every criterion is `all` and every post is shown. The message is exactly `Showing all <n> posts, sorted by latest` for the n posts, and the notice shows only when there are no posts. |
| BlogFilters.TopicScenario | js/blog-filters.js:27-56 | Choosing topic `a` among posts on `a`, `b`, `a` hides the `b` post and counts two. |
| BlogFilters.InsertByDate | js/blog-filters.js:104-106 | Inserting into a latest-first list keeps it latest first and adds exactly the one post. |
| BlogFilters.SortByLatest | js/blog-filters.js:99-106 | The sort returns a permutation of the posts, latest first. |
| BlogFilters.SortKeepsDates | js/blog-filters.js:104-106 | The sort is stable: posts with the same date keep their page order. |
| BlogFilters.LoadPage | js/blog-filters.js:9-13 | On load the posts are sorted latest first (stably), and the message is exactly the no-count message `Showing all <n> posts, sorted by latest`. |

## Left out

- Everything around the converter and the combiner is left out. That is the PDF
  generation (puppeteer), the HTML page template, directory creation,
  writing output files, the command line and `main`. These are I/O or foreign code.
- Reading the section directory and the files is left out. `Sections.CombineSections`
  takes the directory listing, with each file's content, as a parameter.
- The clock is left out: `Sections.Header` takes the date string as a parameter.
- The ISO timestamp (build-node.js:451) is left out, because the lines modelled
  do not use it.
- `printStatus`, `printError` and `process.exit(1)` are left out. The exit
  becomes the `NoSectionFiles` outcome.
- Everything `combineSections` does after line 501 (writing the combined file)
  is left out, because it is I/O.
- The DOM is left out. That covers setting `display`, the buttons' `active`
  classes, and moving the posts in the grid. The model keeps only what those
  writes carry: a visibility flag per post, the no-results flag, the message
  text and the sorted order.
- `js/includes.js` is left out: it loads page fragments over the network.
- Sections.NameLe: this compares Dafny characters, that is Unicode scalar values.
  JavaScript's default `sort()` compares UTF-16 code units. The two orders differ
  only for names with characters outside the Basic Multilingual Plane.
- BlogFilters.SortByLatest: post dates are modelled as integers. Parsing
  `data-date` with `new Date` is left out, and so are invalid dates: a `NaN`
  difference makes the comparator inconsistent.
- BlogFilters.Click: a `filterType` other than the three names is modelled as
  no change. The page would add a property to `currentFilters`, but no test
  ever reads it.
- BlogFilters.CountMatches: its own contract only bounds the count by the
  number of posts. Its meaning at 0 and at the total is stated by
  `BlogFilters.CountExtremes`, and its meaning per post by `BlogFilters.ShowMatching`.
- Markdown.MarkdownToHtml: the output is not characterised for every input.
  It is the corrected converter, and its contract states the no-empty-paragraph
  guarantee, which the converter as written does not keep (third finding). `Markdown.ProseRendered`
  gives the exact output for prose, and the lemmas of each pass describe the
  markup rules one at a time.
- Inline.FenceMatches: code that is empty or all white space is not covered.
  There the backtracking of `\s*\n` over the code's own line feeds decides
  where the code starts, and no lemma states the result.
- Inline.FenceRendersBlock: the same gap, for the same reason.
- Regular expressions are modelled one by one, as hand-written matchers.
  There is no general regular-expression engine. Each matcher follows its
  pattern's greedy or lazy choice. `\s` is modelled as the same white-space
  set that `trim` removes.

## Findings

| source | as written | input that shows it | evidently intended | confidence | as-written member | corrected member |
|---|---|---|---|---|---|---|
| build-node.js:139-156 | A line that both starts with `<pre>` and ends with `</pre>` sets `inCodeBlock`, and only a later line ending in `</pre>` clears it. | The lines `<pre>x</pre>`, an empty line, and `Hello`: `Hello` is copied without a `<p>`, as is all text up to the next `</pre>`. | A one-line code block closes itself, so `Hello` becomes `<p>Hello</p>`. | not executed | Paragraphs.OneLinePreSwallowsText | Paragraphs.CorrectedRestarts |
| build-node.js:162-181 | Every line that starts with a block tag sets `inBlockElement`. This includes headings, `<hr>` and one-line blocks, which have no end tag to clear it. | `# Intro`, an empty line, `Hello` renders `<h1>Intro</h1>`, an empty line and a bare `Hello`, with no `<p>`. | Paragraphs resume after a heading or rule outside an open list, table or quote, so `Hello` becomes `<p>Hello</p>`. Inside an open block, a heading still leaves the block open. | not executed | Paragraphs.HeadingSwallowsText | Paragraphs.WrappedCorrected |
| build-node.js:202-203 | The two clean-up replacements run once each, so removing an inner blank paragraph can leave an outer empty one behind. | The text line `<p> </p>` is wrapped into `<p><p> </p></p>`. The clean-up removes the inner `<p> </p>` and leaves `<p></p>`. | No empty paragraph remains in the output. | not executed | Markdown.AsWrittenLeavesEmpty | Markdown.OutputHasNoBlankParagraph |
