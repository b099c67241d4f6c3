/** The final pass of the converter (build-node.js:128-199): the text is
    split at line feeds and folded line by line over a state that records
    whether the scan is inside a `<pre>` block or another block element and
    which plain lines wait to become the next paragraph. */
module Paragraphs {
  import opened Text

  /** The pass as the converter writes it, or with its two flags repaired
      (see the findings in the README). */
  datatype Variant = AsWritten | Corrected

  datatype State = State(inCode: bool, inBlock: bool, para: seq<string>, out: seq<string>)

  const Start: State := State(false, false, [], [])

  /** `blockElements.some(tag => trimmedLine.startsWith(tag))` */
  predicate StartsBlock(t: string) {
    || StartsWith(t, "<h1") || StartsWith(t, "<h2") || StartsWith(t, "<h3") || StartsWith(t, "<h4")
    || StartsWith(t, "<ul>") || StartsWith(t, "<ol>") || StartsWith(t, "<table>")
    || StartsWith(t, "<blockquote>") || StartsWith(t, "<hr>") || StartsWith(t, "<pre>")
  }

  /** `blockEndElements.some(tag => trimmedLine.includes(tag))` */
  predicate EndsBlock(t: string) {
    Contains(t, "</ul>") || Contains(t, "</ol>") || Contains(t, "</table>") || Contains(t, "</blockquote>")
  }

  /** A block start that continues on later lines: a list, table or quote
      whose closing tag is not on the same line. Headings and rules never
      continue. */
  predicate OpensBlock(t: string) {
    (StartsWith(t, "<ul>") || StartsWith(t, "<ol>") || StartsWith(t, "<table>") || StartsWith(t, "<blockquote>"))
    && !EndsBlock(t)
  }

  /** What the pass sees in a line, checked in the order the pass checks them. */
  datatype Kind =
    | PreOpen(oneLine: bool)  // starts with <pre>; oneLine: also ends with </pre>
    | PreClose                // ends with </pre>
    | BlockStart(opens: bool) // starts with a block tag; opens: continues on later lines
    | BlockEnd                // holds a closing list, table or quote tag
    | Empty                   // nothing but white space
    | Plain(t: string)        // anything else, trimmed

  /** A line of the text together with what the pass sees in it. */
  datatype Line = Line(text: string, kind: Kind)

  function Classify(line: string): Kind {
    var t := Trim(line);
    if StartsWith(t, "<pre>") then PreOpen(EndsWith(t, "</pre>"))
    else if EndsWith(t, "</pre>") then PreClose
    else if StartsBlock(t) then BlockStart(OpensBlock(t))
    else if EndsBlock(t) then BlockEnd
    else if t == "" then Empty
    else Plain(t)
  }

  function Classified(lines: seq<string>): (r: seq<Line>)
    ensures |r| == |lines|
    ensures forall i | 0 <= i < |lines| :: r[i] == Line(lines[i], Classify(lines[i]))
  {
    if |lines| == 0 then [] else [Line(lines[0], Classify(lines[0]))] + Classified(lines[1..])
  }

  /** A pending paragraph, written out: its lines joined by one space. */
  function Flush(para: seq<string>): (r: seq<string>)
    ensures |r| <= 1 && (|r| == 1 <==> |para| > 0)
    ensures |r| == 1 ==> StartsWith(r[0], "<p>") && EndsWith(r[0], "</p>")
  {
    if |para| == 0 then [] else ["<p>" + Join(para, " ") + "</p>"]
  }

  /** One line of the fold. The `<pre>` tests come before the code-block
      test, the block tests before the block-element test. As written, every
      block start sets the block flag; repaired, only a block that continues
      sets it, and a self-contained line leaves it as it was, so a heading
      between the items of a list keeps the list open. */
  function Step(v: Variant, st: State, l: Line): State {
    match l.kind
    case PreOpen(oneLine) =>
      State(v == AsWritten || !oneLine, st.inBlock, [], st.out + Flush(st.para) + [l.text])
    case PreClose => st.(inCode := false, out := st.out + [l.text])
    case _ =>
      if st.inCode then st.(out := st.out + [l.text])
      else match l.kind
        case BlockStart(opens) =>
          st.(inBlock := v == AsWritten || st.inBlock || opens, para := [], out := st.out + Flush(st.para) + [l.text])
        case BlockEnd => st.(inBlock := false, out := st.out + [l.text])
        case _ =>
          if st.inBlock then st.(out := st.out + [l.text])
          else match l.kind
            case Plain(t) => st.(para := st.para + [t])
            case _ => st.(para := [], out := st.out + Flush(st.para))
  }

  function Fold(v: Variant, st: State, lines: seq<Line>): State
    decreases |lines|
  {
    if |lines| == 0 then st else Fold(v, Step(v, st, lines[0]), lines[1..])
  }

  /** The paragraph still pending at the end is written out too. */
  function Finish(st: State): seq<string> {
    st.out + Flush(st.para)
  }

  function Pass(v: Variant, lines: seq<Line>): seq<string> {
    Finish(Fold(v, Start, lines))
  }

  /** The whole pass: split at line feeds, fold, join with line feeds. */
  function Paragraphs(v: Variant, html: string): string {
    Join(Pass(v, Classified(Split(html, '\n'))), "\n")
  }

  // ---------------------------------------------------------------------
  // Folding in pieces

  lemma {:induction false} FoldAppend(v: Variant, st: State, a: seq<Line>, b: seq<Line>)
    ensures Fold(v, st, a + b) == Fold(v, Fold(v, st, a), b)
    decreases |a|
  {
    if |a| == 0 {
      assert a + b == b;
    } else {
      assert (a + b)[0] == a[0];
      assert (a + b)[1..] == a[1..] + b;
      FoldAppend(v, Step(v, st, a[0]), a[1..], b);
    }
  }

  /** The fold only appends to the lines already written. */
  lemma {:induction false} FoldKeepsOut(v: Variant, st: State, lines: seq<Line>)
    ensures Fold(v, st, lines).out == st.out + Fold(v, st.(out := []), lines).out
    ensures Fold(v, st, lines).(out := []) == Fold(v, st.(out := []), lines).(out := [])
    decreases |lines|
  {
    if |lines| == 0 {
      assert st.out + [] == st.out;
    } else {
      var st' := Step(v, st, lines[0]);
      var e' := Step(v, st.(out := []), lines[0]);
      StepKeepsOut(v, st, lines[0]);
      FoldKeepsOut(v, st', lines[1..]);
      FoldKeepsOut(v, e', lines[1..]);
      assert st'.(out := []) == e'.(out := []);
    }
  }

  lemma StepKeepsOut(v: Variant, st: State, l: Line)
    ensures Step(v, st, l).out == st.out + Step(v, st.(out := []), l).out
    ensures Step(v, st, l).(out := []) == Step(v, st.(out := []), l).(out := [])
  {
    var f := Flush(st.para);
    match l.kind
    case PreOpen(_) =>
      assert Step(v, st, l).out == st.out + f + [l.text];
    case PreClose =>
    case _ =>
  }

  lemma FinishKeepsOut(v: Variant, st: State, lines: seq<Line>)
    ensures Finish(Fold(v, st, lines)) == st.out + Finish(Fold(v, st.(out := []), lines))
    ensures Fold(v, st, lines).inCode == Fold(v, st.(out := []), lines).inCode
    ensures Fold(v, st, lines).inBlock == Fold(v, st.(out := []), lines).inBlock
  {
    FoldKeepsOut(v, st, lines);
    var a, b := Fold(v, st, lines), Fold(v, st.(out := []), lines);
    assert a.(out := []).para == b.(out := []).para;
    assert a.(out := []).inCode == b.(out := []).inCode;
    assert a.(out := []).inBlock == b.(out := []).inBlock;
  }

  // ---------------------------------------------------------------------
  // Code blocks

  /** A line that neither opens nor closes a `<pre>` block. */
  predicate InsideCode(l: Line) {
    !l.kind.PreOpen? && !l.kind.PreClose?
  }

  /** Inside a `<pre>` block every line is written out as it is, never
      trimmed and never gathered into a paragraph. */
  lemma {:induction false} CodeLinesVerbatim(v: Variant, st: State, lines: seq<Line>)
    requires st.inCode
    requires forall i | 0 <= i < |lines| :: InsideCode(lines[i])
    ensures Fold(v, st, lines) == st.(out := st.out + Texts(lines))
    decreases |lines|
  {
    if |lines| == 0 {
      assert st.out + [] == st.out;
    } else {
      var st' := st.(out := st.out + [lines[0].text]);
      CodeStep(v, st, lines);
      CodeLinesVerbatim(v, st', lines[1..]);
      TextsCons(st.out, lines);
    }
  }

  /** A line inside a `<pre>` block is written out as it is. */
  lemma CodeStep(v: Variant, st: State, lines: seq<Line>)
    requires st.inCode && |lines| > 0 && InsideCode(lines[0])
    ensures Fold(v, st, lines) == Fold(v, st.(out := st.out + [lines[0].text]), lines[1..])
  {
  }

  lemma TextsCons(out: seq<string>, lines: seq<Line>)
    requires |lines| > 0
    ensures out + [lines[0].text] + Texts(lines[1..]) == out + Texts(lines)
  {
    assert Texts(lines) == [lines[0].text] + Texts(lines[1..]);
    AppendAssoc(out, [lines[0].text], Texts(lines[1..]));
  }

  lemma AppendAssoc(a: seq<string>, b: seq<string>, c: seq<string>)
    ensures a + b + c == a + (b + c)
  {
  }

  function Texts(lines: seq<Line>): (r: seq<string>)
    ensures |r| == |lines| && forall i | 0 <= i < |lines| :: r[i] == lines[i].text
  {
    if |lines| == 0 then [] else [lines[0].text] + Texts(lines[1..])
  }

  /** A `<pre>` block spread over several lines: the paragraph pending
      before it is written out, then the block's lines unchanged, and the
      scan leaves the block after its closing line. */
  lemma CodeBlockVerbatim(v: Variant, st: State, first: Line, body: seq<Line>, last: Line)
    requires first.kind == PreOpen(false)
    requires forall i | 0 <= i < |body| :: InsideCode(body[i])
    requires last.kind == PreClose
    ensures Fold(v, st, [first] + body + [last])
         == State(false, st.inBlock, [], st.out + Flush(st.para) + [first.text] + Texts(body) + [last.text])
  {
    var st1 := Step(v, st, first);
    assert st1 == State(true, st.inBlock, [], st.out + Flush(st.para) + [first.text]);
    FoldAppend(v, st, [first], body + [last]);
    assert [first] + body + [last] == [first] + (body + [last]);
    assert Fold(v, st, [first]) == st1;
    FoldAppend(v, st1, body, [last]);
    CodeLinesVerbatim(v, st1, body);
    var st2 := st1.(out := st1.out + Texts(body));
    assert Fold(v, st2, [last]) == Step(v, st2, last);
  }

  // ---------------------------------------------------------------------
  // Plain text: the reference grouping into paragraphs

  /** A line none of whose markers the pass looks for. */
  predicate PlainLine(l: Line) {
    l.kind.Empty? || l.kind.Plain?
  }

  predicate AllPlain(lines: seq<Line>) {
    forall i | 0 <= i < |lines| :: PlainLine(lines[i])
  }

  /** Index of the first blank line, or the length when there is none. */
  function FirstBlank(lines: seq<Line>): (k: nat)
    ensures k <= |lines|
    ensures forall i | 0 <= i < k :: !lines[i].kind.Empty?
    ensures k == |lines| || lines[k].kind.Empty?
  {
    if |lines| == 0 || lines[0].kind.Empty? then 0 else 1 + FirstBlank(lines[1..])
  }

  /** The trimmed text of each line. */
  function Words(lines: seq<Line>): seq<string>
    requires AllPlain(lines)
    requires forall i | 0 <= i < |lines| :: !lines[i].kind.Empty?
  {
    if |lines| == 0 then [] else [lines[0].kind.t] + Words(lines[1..])
  }

  lemma {:induction false} WordsAre(lines: seq<Line>)
    requires AllPlain(lines)
    requires forall i | 0 <= i < |lines| :: !lines[i].kind.Empty?
    ensures |Words(lines)| == |lines|
    ensures forall i | 0 <= i < |lines| :: Words(lines)[i] == lines[i].kind.t
    decreases |lines|
  {
    if |lines| > 0 {
      WordsAre(lines[1..]);
    }
  }

  /** The paragraphs of plain text, read off directly: the text is cut at
      its blank lines and every non-empty piece becomes one paragraph of
      its trimmed lines joined by a space. */
  function RefParagraphs(lines: seq<Line>): seq<string>
    requires AllPlain(lines)
    decreases |lines|
  {
    var k := FirstBlank(lines);
    Flush(Words(lines[..k])) + (if k == |lines| then [] else RefParagraphs(lines[k + 1..]))
  }

  /** Lines of text inside a paragraph only extend it. */
  lemma {:induction false} FoldWords(v: Variant, para: seq<string>, out: seq<string>, lines: seq<Line>)
    requires AllPlain(lines) && forall i | 0 <= i < |lines| :: !lines[i].kind.Empty?
    ensures Fold(v, State(false, false, para, out), lines) == State(false, false, para + Words(lines), out)
    decreases |lines|
  {
    if |lines| == 0 {
      assert para + [] == para;
    } else {
      var l := lines[0];
      assert l.kind.Plain?;
      assert Step(v, State(false, false, para, out), l) == State(false, false, para + [l.kind.t], out);
      FoldWords(v, para + [l.kind.t], out, lines[1..]);
      assert para + [l.kind.t] + Words(lines[1..]) == para + Words(lines);
    }
  }

  /** The lines before the first blank one gather into the pending
      paragraph. */
  lemma FirstChunk(v: Variant, lines: seq<Line>)
    requires AllPlain(lines)
    ensures var k := FirstBlank(lines);
      Fold(v, Start, lines) == Fold(v, State(false, false, Words(lines[..k]), []), lines[k..])
  {
    var k := FirstBlank(lines);
    var chunk := lines[..k];
    FoldAppend(v, Start, chunk, lines[k..]);
    assert chunk + lines[k..] == lines;
    FoldWords(v, [], [], chunk);
    assert [] + Words(chunk) == Words(chunk);
  }

  /** A blank line writes the pending paragraph out and starts afresh. */
  lemma BlankFlushes(v: Variant, para: seq<string>, lines: seq<Line>, k: nat)
    requires AllPlain(lines) && k < |lines| && lines[k].kind.Empty?
    ensures AllPlain(lines[k + 1..])
    ensures Fold(v, State(false, false, para, []), lines[k..])
      == Fold(v, State(false, false, [], Flush(para)), lines[k + 1..])
  {
    var rest := lines[k + 1..];
    assert lines[k..] == [lines[k]] + rest;
    assert lines[k..][1..] == rest;
    var st := State(false, false, para, []);
    assert Step(v, st, lines[k]) == State(false, false, [], Flush(para));
    assert Fold(v, st, lines[k..]) == Fold(v, Step(v, st, lines[k]), rest);
    forall i | 0 <= i < |rest| ensures PlainLine(rest[i]) {
      assert rest[i] == lines[k + 1 + i];
    }
  }

  /** On plain text the fold produces exactly the reference paragraphs,
      in both variants, and ends outside any block. */
  lemma {:induction false} PlainParagraphs(v: Variant, lines: seq<Line>)
    requires AllPlain(lines)
    ensures Pass(v, lines) == RefParagraphs(lines)
    ensures !Fold(v, Start, lines).inCode && !Fold(v, Start, lines).inBlock
    decreases |lines|
  {
    var k := FirstBlank(lines);
    var para := Words(lines[..k]);
    FirstChunk(v, lines);
    if k < |lines| {
      var rest := lines[k + 1..];
      var st' := State(false, false, [], Flush(para));
      BlankFlushes(v, para, lines, k);
      PlainParagraphs(v, rest);
      assert st'.(out := []) == Start;
      FinishKeepsOut(v, st', rest);
    } else {
      assert lines[k..] == [];
    }
  }

  // ---------------------------------------------------------------------
  // Block elements, and the two variants

  /** A block element flushes the paragraph pending before it and is
      written out itself; the flags it leaves behind are where the two
      variants differ. */
  lemma BlockAfterPlain(v: Variant, plain: seq<Line>, b: Line)
    requires AllPlain(plain) && (b.kind.PreOpen? || b.kind.BlockStart?)
    ensures var st := Fold(v, Start, plain + [b]);
      && st.out == RefParagraphs(plain) + [b.text] && st.para == []
      && st.inCode == (b.kind.PreOpen? && (v == AsWritten || !b.kind.oneLine))
      && st.inBlock == (b.kind.BlockStart? && (v == AsWritten || b.kind.opens))
  {
    FoldAppend(v, Start, plain, [b]);
    PlainParagraphs(v, plain);
    var st := Fold(v, Start, plain);
    assert Fold(v, st, [b]) == Step(v, st, b);
  }

  /** A line that is a whole block by itself: a heading, a rule, a one-line
      list, table or quote, or a `<pre>` block on one line. */
  predicate SelfContained(k: Kind) {
    k == PreOpen(true) || k == BlockStart(false)
  }

  /** In the corrected pass a self-contained block line closes what came
      before and the text after it is paragraphed afresh. */
  lemma CorrectedRestarts(plain: seq<Line>, b: Line, rest: seq<Line>)
    requires AllPlain(plain) && SelfContained(b.kind)
    ensures Pass(Corrected, plain + [b] + rest) == RefParagraphs(plain) + [b.text] + Pass(Corrected, rest)
  {
    BlockAfterPlain(Corrected, plain, b);
    FoldAppend(Corrected, Start, plain + [b], rest);
    var st := Fold(Corrected, Start, plain + [b]);
    assert st.(out := []) == Start;
    FinishKeepsOut(Corrected, st, rest);
  }

  /** The variants differ only after self-contained block lines. */
  lemma {:induction false} VariantsAgree(st: State, lines: seq<Line>)
    requires forall i | 0 <= i < |lines| :: !SelfContained(lines[i].kind)
    ensures Fold(AsWritten, st, lines) == Fold(Corrected, st, lines)
    decreases |lines|
  {
    if |lines| > 0 {
      assert !SelfContained(lines[0].kind);
      assert Step(AsWritten, st, lines[0]) == Step(Corrected, st, lines[0]);
      VariantsAgree(Step(AsWritten, st, lines[0]), lines[1..]);
    }
  }

  /** Inside a list, table or quote that is still open, every line but a
      closing one is copied as it is, in either variant, and the block
      stays open: a heading or rule between the items does not close it. */
  lemma {:induction false} OpenBlockVerbatim(v: Variant, st: State, lines: seq<Line>)
    requires st.inBlock && st.para == []
    requires forall i | 0 <= i < |lines| :: !lines[i].kind.BlockEnd?
    ensures Fold(v, st, lines).out == st.out + Texts(lines)
    ensures Fold(v, st, lines).inBlock && Fold(v, st, lines).para == []
    decreases |lines|
  {
    if |lines| > 0 {
      var st' := Step(v, st, lines[0]);
      StepInOpenBlock(v, st, lines[0]);
      OpenBlockVerbatim(v, st', lines[1..]);
      TextsCons(st.out, lines);
    }
  }

  lemma StepInOpenBlock(v: Variant, st: State, l: Line)
    requires st.inBlock && st.para == [] && !l.kind.BlockEnd?
    ensures Step(v, st, l).out == st.out + [l.text]
    ensures Step(v, st, l).inBlock && Step(v, st, l).para == []
  {
    assert Flush(st.para) == [];
  }

  /** A list, table or quote that opens on one line and closes on a later
      one comes out line for line, whatever block lines lie between. */
  lemma BlockVerbatim(v: Variant, open: Line, body: seq<Line>, close: Line)
    requires open.kind == BlockStart(true) && close.kind == BlockEnd
    requires forall i | 0 <= i < |body| :: !body[i].kind.BlockEnd?
    ensures Pass(v, [open] + body + [close]) == [open.text] + Texts(body) + [close.text]
  {
    var lines := [open] + body + [close];
    BlockVerbatimFrom(v, Start, open, body, close);
    assert Pass(v, lines) == Finish(Fold(v, Start, lines));
    assert Start.out + [open.text] == [open.text];
  }

  /** The same from any point outside code with no paragraph pending. */
  lemma BlockVerbatimFrom(v: Variant, st: State, open: Line, body: seq<Line>, close: Line)
    requires !st.inCode && st.para == []
    requires open.kind == BlockStart(true) && close.kind == BlockEnd
    requires forall i | 0 <= i < |body| :: !body[i].kind.BlockEnd?
    ensures Finish(Fold(v, st, [open] + body + [close])) == st.out + [open.text] + Texts(body) + [close.text]
  {
    var s1 := Step(v, st, open);
    assert Flush(st.para) == [];
    assert s1 == State(false, true, [], st.out + [open.text]);
    OpenBlockVerbatim(v, s1, body);
    var e := Fold(v, s1, body);
    FoldCons(v, st, open, body);
    FoldSnoc(v, st, [open] + body, close);
    CloseStep(v, e, close);
  }

  /** A heading before a list and another between its items: both
      variants copy every line, and the items stay inside the list. */
  lemma HeadingInsideList(v: Variant, h1: Line, open: Line, h2: Line, item: Line, close: Line)
    requires h1.kind == BlockStart(false) && open.kind == BlockStart(true) && h2.kind == BlockStart(false)
    requires item.kind.Plain? && close.kind == BlockEnd
    ensures Pass(v, [h1, open, h2, item, close]) == [h1.text, open.text, h2.text, item.text, close.text]
  {
    var s1 := State(false, v == AsWritten, [], [h1.text]);
    var body := [h2, item];
    var rest := [open] + body + [close];
    assert [h1, open, h2, item, close] == [h1] + rest;
    AfterSelfContained(v, h1, rest);
    BlockVerbatimFrom(v, s1, open, body, close);
    TextsTwo(h2, item);
    assert [h1.text] + [open.text] + [h2.text, item.text] + [close.text]
        == [h1.text, open.text, h2.text, item.text, close.text];
  }

  /** A heading or rule at the start is written out; as written it sets the
      block flag, repaired it does not. */
  lemma AfterSelfContained(v: Variant, h: Line, rest: seq<Line>)
    requires h.kind == BlockStart(false)
    ensures Fold(v, Start, [h] + rest) == Fold(v, State(false, v == AsWritten, [], [h.text]), rest)
  {
    FoldCons(v, Start, h, rest);
    assert Flush(Start.para) == [];
    assert Step(v, Start, h) == State(false, v == AsWritten, [], [h.text]);
  }

  lemma TextsTwo(a: Line, b: Line)
    ensures Texts([a, b]) == [a.text, b.text]
  {
    assert [a, b][1..] == [b];
    assert [b][1..] == [];
  }

  lemma FoldCons(v: Variant, st: State, x: Line, rest: seq<Line>)
    ensures Fold(v, st, [x] + rest) == Fold(v, Step(v, st, x), rest)
  {
    assert ([x] + rest)[1..] == rest;
  }

  lemma FoldSnoc(v: Variant, st: State, a: seq<Line>, x: Line)
    ensures Fold(v, st, a + [x]) == Step(v, Fold(v, st, a), x)
  {
    FoldAppend(v, st, a, [x]);
    assert Fold(v, Fold(v, st, a), [x]) == Fold(v, Step(v, Fold(v, st, a), x), []);
  }

  /** The closing line of a block is written out and nothing is pending. */
  lemma CloseStep(v: Variant, e: State, close: Line)
    requires close.kind == BlockEnd && e.para == []
    ensures Finish(Step(v, e, close)) == e.out + [close.text]
  {
    assert Flush(e.para) == [];
  }

  /** The two variants agree on the lines of an open block. */
  lemma OpenBlockAgrees(st: State, lines: seq<Line>)
    requires st.inBlock && st.para == []
    requires forall i | 0 <= i < |lines| :: !lines[i].kind.BlockEnd?
    ensures Fold(AsWritten, st, lines).(inCode := false) == Fold(Corrected, st, lines).(inCode := false)
  {
    OpenBlockVerbatim(AsWritten, st, lines);
    OpenBlockVerbatim(Corrected, st, lines);
  }

  // ---------------------------------------------------------------------
  // Text without markup

  /** What a line of text adds to a paragraph starts with a character
      other than white space and holds no `<`. */
  predicate PlainText(l: Line) {
    l.kind.Plain? ==> |l.kind.t| > 0 && !IsSpace(l.kind.t[0]) && AllIn(Other('<'), l.kind.t)
  }

  /** On text without `<` every line is plain, and the pass, in either
      variant, writes out exactly the reference paragraphs. */
  lemma UntaggedParagraphs(v: Variant, html: string)
    requires AllIn(Other('<'), html)
    ensures var lines := Classified(Split(html, '\n'));
      && AllPlain(lines)
      && (forall i | 0 <= i < |lines| :: PlainText(lines[i]))
      && Paragraphs(v, html) == Join(RefParagraphs(lines), "\n")
  {
    var parts := Split(html, '\n');
    SplitKeeps(html, '\n', Other('<'));
    var lines := Classified(parts);
    forall i | 0 <= i < |lines| ensures PlainLine(lines[i]) && PlainText(lines[i]) {
      Untagged(parts[i]);
      TrimKeeps(parts[i], Other('<'));
    }
    PlainParagraphs(v, lines);
  }

  // ---------------------------------------------------------------------
  // The pass as written: text after a self-contained block is never paragraphed

  /** A pattern that starts with `<` is not found in a text without one. */
  lemma NoTag(t: string, p: string)
    requires AllIn(Other('<'), t) && |p| > 0 && p[0] == '<'
    ensures !StartsWith(t, p) && !EndsWith(t, p) && !Contains(t, p)
  {
    if |p| <= |t| {
      assert t[..|p|][0] == t[0];
      assert t[|t| - |p|..][0] == t[|t| - |p|];
    }
    AbsentFirstChar(t, p);
  }

  /** A line without `<` is plain: blank, or text to be paragraphed. */
  lemma Untagged(line: string)
    requires AllIn(Other('<'), line)
    ensures Classify(line) == if Trim(line) == "" then Empty else Plain(Trim(line))
  {
    var t := Trim(line);
    TrimKeeps(line, Other('<'));
    NoTag(t, "<pre>");
    NoTag(t, "</pre>");
    NoTag(t, "<h1");
    NoTag(t, "<h2");
    NoTag(t, "<h3");
    NoTag(t, "<h4");
    NoTag(t, "<ul>");
    NoTag(t, "<ol>");
    NoTag(t, "<table>");
    NoTag(t, "<blockquote>");
    NoTag(t, "<hr>");
    NoTag(t, "</ul>");
    NoTag(t, "</ol>");
    NoTag(t, "</table>");
    NoTag(t, "</blockquote>");
  }

  lemma ClassifyOneLinePre()
    ensures Classify("<pre>x</pre>") == PreOpen(true)
  {
    var s := "<pre>x</pre>";
    assert !IsSpace(s[0]) && !IsSpace(s[|s| - 1]);
    assert StartsWith(s, "<pre>") && EndsWith(s, "</pre>");
  }

  lemma ClassifyHeading()
    ensures Classify("<h1>Intro</h1>") == BlockStart(false)
  {
    var s := "<h1>Intro</h1>";
    assert !IsSpace(s[0]) && !IsSpace(s[|s| - 1]);
    assert s[1] == 'h' && s[|s| - 2] == '1';
    assert !StartsWith(s, "<pre>") && !EndsWith(s, "</pre>");
    assert StartsWith(s, "<h1");
    assert !StartsWith(s, "<ul>") && !StartsWith(s, "<ol>") && !StartsWith(s, "<table>") && !StartsWith(s, "<blockquote>");
  }

  lemma ClassifyHello()
    ensures Classify("Hello") == Plain("Hello") && Classify("") == Empty
  {
    var s := "Hello";
    assert !IsSpace(s[0]) && !IsSpace(s[|s| - 1]);
    Untagged("");
    Untagged(s);
  }

  lemma FoldThree(v: Variant, st: State, x: Line, y: Line, z: Line)
    ensures Fold(v, st, [x, y, z]) == Step(v, Step(v, Step(v, st, x), y), z)
  {
    var l := [x, y, z];
    var s1, s2 := Step(v, st, x), Step(v, Step(v, st, x), y);
    assert l[1..] == [y, z] && [y, z][1..] == [z] && [z][1..] == [];
    assert Fold(v, s2, [z]) == Fold(v, Step(v, s2, z), []);
    assert Fold(v, s1, [y, z]) == Fold(v, s2, [z]);
  }

  lemma ClassifiedThree(a: string, b: string, c: string)
    ensures Classified([a, b, c]) == [Line(a, Classify(a)), Line(b, Classify(b)), Line(c, Classify(c))]
  {
    var l := [a, b, c];
    assert l[1..] == [b, c] && [b, c][1..] == [c] && [c][1..] == [];
  }

  /** Once a line of kind `b` has set the as-written pass's flag, a blank
      line and a line of text pass through unchanged. */
  lemma SwallowedAsWritten(b: Line, blank: string, text: string, t: string)
    requires SelfContained(b.kind)
    ensures Pass(AsWritten, [b, Line(blank, Empty), Line(text, Plain(t))]) == [b.text, blank, text]
  {
    FoldThree(AsWritten, Start, b, Line(blank, Empty), Line(text, Plain(t)));
  }

  /** The corrected pass wraps the text after it in a paragraph. */
  lemma WrappedCorrected(b: Line, blank: string, text: string, t: string)
    requires SelfContained(b.kind)
    ensures Pass(Corrected, [b, Line(blank, Empty), Line(text, Plain(t))]) == [b.text, "<p>" + t + "</p>"]
  {
    FoldThree(Corrected, Start, b, Line(blank, Empty), Line(text, Plain(t)));
    assert Join([t], " ") == t;
  }

  /** A fenced block that fits on one line leaves the as-written pass
      inside a code block for good: the text after it is not wrapped. */
  lemma OneLinePreSwallowsText()
    ensures Pass(AsWritten, Classified(["<pre>x</pre>", "", "Hello"])) == ["<pre>x</pre>", "", "Hello"]
    ensures Pass(Corrected, Classified(["<pre>x</pre>", "", "Hello"])) == ["<pre>x</pre>", "<p>" + "Hello" + "</p>"]
  {
    ClassifyOneLinePre();
    ClassifyHello();
    ClassifiedThree("<pre>x</pre>", "", "Hello");
    SwallowedAsWritten(Line("<pre>x</pre>", PreOpen(true)), "", "Hello", "Hello");
    WrappedCorrected(Line("<pre>x</pre>", PreOpen(true)), "", "Hello", "Hello");
  }

  /** A heading leaves the as-written pass inside a block element for good:
      the paragraph after it is neither wrapped nor separated. */
  lemma HeadingSwallowsText()
    ensures Pass(AsWritten, Classified(["<h1>Intro</h1>", "", "Hello"])) == ["<h1>Intro</h1>", "", "Hello"]
    ensures Pass(Corrected, Classified(["<h1>Intro</h1>", "", "Hello"])) == ["<h1>Intro</h1>", "<p>" + "Hello" + "</p>"]
  {
    ClassifyHeading();
    ClassifyHello();
    ClassifiedThree("<h1>Intro</h1>", "", "Hello");
    SwallowedAsWritten(Line("<h1>Intro</h1>", BlockStart(false)), "", "Hello", "Hello");
    WrappedCorrected(Line("<h1>Intro</h1>", BlockStart(false)), "", "Hello", "Hello");
  }

  // ---------------------------------------------------------------------
  // A paragraph inside a paragraph

  /** A single line of text becomes a single paragraph. */
  lemma OneTextLine(v: Variant, x: string)
    requires AllIn(Other('\n'), x) && Classify(x) == Plain(x)
    ensures Paragraphs(v, x) == "<p>" + x + "</p>"
  {
    RunIs(x, Other('\n'), |x|);
    assert Split(x, '\n') == [x];
    var l := Line(x, Plain(x));
    assert Classified([x]) == [l];
    assert [l][1..] == [];
    assert Fold(v, Start, [l]) == Step(v, Start, l);
    assert Join([x], " ") == x;
  }

  lemma BlankParagraphTrimmed(x: string)
    requires x == "<p> </p>"
    ensures Trim(x) == x && AllIn(Other('\n'), x)
  {
    assert forall i | 0 <= i < |x| :: x[i] in {'<', 'p', '>', ' ', '/'};
    TagTrimmed(x);
  }

  /** Text between angle brackets has nothing to trim. */
  lemma TagTrimmed(x: string)
    requires |x| > 0 && x[0] == '<' && x[|x| - 1] == '>'
    ensures Trim(x) == x
  {
  }

  lemma BlankParagraphNotBlock(x: string)
    requires x == "<p> </p>"
    ensures !StartsWith(x, "<pre>") && !EndsWith(x, "</pre>") && !StartsBlock(x)
  {
    assert x[1] == 'p' && x[2] == '>';
    assert x[|x| - 6] == '>';
  }

  lemma BlankParagraphNoEnd(x: string)
    requires x == "<p> </p>"
    ensures !EndsBlock(x)
  {
    assert forall i | 0 <= i < |x| :: x[i] in {'<', 'p', '>', ' ', '/'};
    AbsentChar(x, "</ul>", 2);
    AbsentChar(x, "</ol>", 2);
    AbsentChar(x, "</table>", 2);
    AbsentChar(x, "</blockquote>", 2);
  }

  /** A line holding a blank paragraph is text to the pass. */
  lemma ClassifyBlankParagraph(x: string)
    requires x == "<p> </p>"
    ensures Classify(x) == Plain(x) && AllIn(Other('\n'), x)
  {
    BlankParagraphTrimmed(x);
    BlankParagraphNotBlock(x);
    BlankParagraphNoEnd(x);
  }

  predicate NoSelfContained(lines: seq<Line>) {
    forall i | 0 <= i < |lines| :: !SelfContained(lines[i].kind)
  }

  /** The two variants agree on text without self-contained block lines. */
  lemma AgreeWithoutSelfContained(html: string)
    requires NoSelfContained(Classified(Split(html, '\n')))
    ensures Paragraphs(AsWritten, html) == Paragraphs(Corrected, html)
  {
    var lines := Classified(Split(html, '\n'));
    VariantsAgree(Start, lines);
  }
}
