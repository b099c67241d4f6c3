/** The two passes that wrap a stretch of the text in a container element
    (build-node.js:105 and 113-119). Neither is anchored and both use the
    dotall flag, so the greedy `.*` reaches from the first opening tag over
    line ends to the last closing tag of the whole text: the passes wrap one
    stretch, not each group of consecutive rows or items. */
module Blocks {
  import opened Text

  /** `s` with `open` inserted at `p` and `close` at `e`. */
  function Wrap(s: string, p: nat, e: nat, open: string, close: string): (r: string)
    requires p <= e <= |s|
    ensures |r| == |s| + |open| + |close|
  {
    s[..p] + open + s[p..e] + close + s[e..]
  }

  /** `html.replace(/(<tr>.*<\/tr>)/s, '<table>$1</table>')`: one match at
      most, from the first `<tr>` to the last `</tr>` after it. */
  function TableWrap(s: string): (r: string)
    ensures !Contains(s, "</tr>") ==> r == s
  {
    match IndexOf(s, "<tr>", 0)
    case None => s
    case Some(p) =>
      match Last(s, "</tr>")
      case None => s
      case Some(q) => if p + 4 <= q then Wrap(s, p, q + 5, "<table>", "</table>") else s
  }

  /** The ordered-versus-unordered choice: the whole original markdown is
      searched for `1. ` or `2. `, wherever they stand. */
  predicate Numbered(markdown: string) {
    Contains(markdown, "1. ") || Contains(markdown, "2. ")
  }

  /** `html.replace(/((<li>.*<\/li>\s*)+)/gs, …)`: the first iteration of
      the group already reaches the last `</li>`, the `\s*` takes the white
      space after it, and no `</li>` is left for a second iteration or a
      second match. */
  function ListWrap(markdown: string, s: string): (r: string)
    ensures !Contains(s, "</li>") ==> r == s
  {
    match IndexOf(s, "<li>", 0)
    case None => s
    case Some(p) =>
      match Last(s, "</li>")
      case None => s
      case Some(q) =>
        if p + 4 <= q then WrapList(markdown, s, p, ItemsEnd(s, q)) else s
  }

  /** The end of the white space after the `</li>` at `q`. */
  function ItemsEnd(s: string, q: nat): (e: nat)
    requires q + 5 <= |s|
    ensures q + 5 <= e <= |s|
  {
    q + 5 + Run(s[q + 5..], Space)
  }

  /** The list element the pass wraps the stretch from `p` to `e` in. */
  function WrapList(markdown: string, s: string, p: nat, e: nat): string
    requires p <= e <= |s|
  {
    if Numbered(markdown) then Wrap(s, p, e, "<ol>", "</ol>") else Wrap(s, p, e, "<ul>", "</ul>")
  }

  /** A pattern whose first character does not occur again in it. */
  predicate Unrepeated(pat: string) {
    |pat| > 0 && forall i | 1 <= i < |pat| :: pat[i] != pat[0]
  }

  /** A pattern absent from `pre` does not occur before the copy of it
      that follows `pre`: it cannot straddle the boundary. */
  lemma NothingBefore(s: string, pre: string, pat: string, rest: string)
    requires Unrepeated(pat) && !Contains(pre, pat)
    requires s == pre + pat + rest
    ensures forall j: nat | j < |pre| :: !OccursAt(s, pat, j)
    ensures OccursAt(s, pat, |pre|)
  {
    assert s[|pre|..|pre| + |pat|] == pat;
    forall j: nat | j < |pre| ensures !OccursAt(s, pat, j) {
      if j + |pat| <= |pre| {
        assert !OccursAt(pre, pat, j);
        assert s[j..j + |pat|] == pre[j..j + |pat|];
      } else if j + |pat| <= |s| {
        var k := |pre| - j;
        assert s[j..j + |pat|][k] == s[|pre|] == pat[0];
        assert pat[k] != pat[0];
      }
    }
  }

  /** A pattern absent from `post` does not occur after the copy of it
      that precedes `post`. */
  lemma NothingAfter(s: string, front: string, pat: string, post: string)
    requires Unrepeated(pat) && !Contains(post, pat)
    requires s == front + pat + post
    ensures forall j: nat | |front| < j :: !OccursAt(s, pat, j)
    ensures OccursAt(s, pat, |front|)
  {
    var e := |front| + |pat|;
    assert s[|front|..e] == pat;
    forall j: nat | |front| < j ensures !OccursAt(s, pat, j) {
      if e <= j && j + |pat| <= |s| {
        assert !OccursAt(post, pat, j - e);
        assert s[j..j + |pat|] == post[j - e..j - e + |pat|];
      } else if j < e && j + |pat| <= |s| {
        assert s[j..j + |pat|][0] == s[j] == pat[j - |front|];
      }
    }
  }

  /** `Last` is the occurrence with none after it. */
  lemma LastIs(s: string, pat: string, q: nat)
    requires OccursAt(s, pat, q)
    requires forall j: nat | q < j :: !OccursAt(s, pat, j)
    ensures Last(s, pat) == Some(q)
  {
    assert Contains(s, pat);
  }

  lemma UnrepeatedTags()
    ensures Unrepeated("<tr>") && Unrepeated("</tr>") && Unrepeated("<li>") && Unrepeated("</li>")
  {
  }

  lemma Pieces(pre: string, a: string, mid: string, b: string, post: string)
    ensures var s := pre + a + mid + b + post;
      && s == pre + a + (mid + b + post)
      && s == (pre + a + mid) + b + post
      && s[..|pre|] == pre
      && s[|pre|..|pre| + |a| + |mid| + |b|] == a + mid + b
      && s[|pre| + |a| + |mid| + |b|..] == post
  {
  }

  /** Everything from the first row to the last row becomes one table,
      whatever stands between the rows. */
  lemma TableWrapped(pre: string, mid: string, post: string)
    requires !Contains(pre, "<tr>") && !Contains(post, "</tr>")
    ensures TableWrap(pre + "<tr>" + mid + "</tr>" + post)
         == pre + "<table>" + ("<tr>" + mid + "</tr>") + "</table>" + post
  {
    var s := pre + "<tr>" + mid + "</tr>" + post;
    var p, q := |pre|, |pre| + 4 + |mid|;
    UnrepeatedTags();
    Pieces(pre, "<tr>", mid, "</tr>", post);
    NothingBefore(s, pre, "<tr>", mid + "</tr>" + post);
    IndexOfIs(s, "<tr>", 0, p);
    NothingAfter(s, pre + "<tr>" + mid, "</tr>", post);
    LastIs(s, "</tr>", q);
  }

  /** Everything from the first item to the last item, and the white space
      after it, goes into one list element: ordered whenever `1. ` or `2. `
      occurs anywhere in the original markdown, unordered otherwise. */
  lemma ListWrapped(markdown: string, s: string, pre: string, mid: string, ws: string, post: string)
    requires s == pre + "<li>" + mid + "</li>" + (ws + post)
    requires !Contains(pre, "<li>") && !Contains(post, "</li>")
    requires AllIn(Space, ws) && (|post| == 0 || !IsSpace(post[0]))
    ensures ListWrap(markdown, s)
      == if Contains(markdown, "1. ") || Contains(markdown, "2. ")
         then pre + "<ol>" + ("<li>" + mid + "</li>" + ws) + "</ol>" + post
         else pre + "<ul>" + ("<li>" + mid + "</li>" + ws) + "</ul>" + post
  {
    var q := |pre| + 4 + |mid|;
    var e := q + 5 + |ws|;
    ListSpan(markdown, s, pre, mid, ws, post, q, e);
    ItemsWrapped(markdown, s, pre, mid, ws, post, e);
  }

  /** The stretch the list pass wraps in such a text. */
  lemma ListSpan(markdown: string, s: string, pre: string, mid: string, ws: string, post: string, q: nat, e: nat)
    requires s == pre + "<li>" + mid + "</li>" + (ws + post)
    requires !Contains(pre, "<li>") && !Contains(post, "</li>")
    requires AllIn(Space, ws) && (|post| == 0 || !IsSpace(post[0]))
    requires q == |pre| + 4 + |mid| && e == q + 5 + |ws|
    ensures e <= |s| && ListWrap(markdown, s) == WrapList(markdown, s, |pre|, e)
  {
    ItemBounds(s, pre, mid, ws, post, q, e);
    ListWrapAt(markdown, s, |pre|, q, e);
  }

  /** The list element around the items and the white space after them. */
  lemma ItemsWrapped(markdown: string, s: string, pre: string, mid: string, ws: string, post: string, e: nat)
    requires s == pre + "<li>" + mid + "</li>" + (ws + post)
    requires e == |pre| + |mid| + 9 + |ws|
    ensures e <= |s|
    ensures WrapList(markdown, s, |pre|, e)
      == if Contains(markdown, "1. ") || Contains(markdown, "2. ") then pre + "<ol>" + ("<li>" + mid + "</li>" + ws) + "</ol>" + post
         else pre + "<ul>" + ("<li>" + mid + "</li>" + ws) + "</ul>" + post
  {
    var items := "<li>" + mid + "</li>";
    assert s == pre + items + (ws + post);
    WrapItems(s, pre, items, ws, post);
  }

  /** The list pass once its first and its last item are known. */
  lemma ListWrapAt(markdown: string, s: string, p: nat, q: nat, e: nat)
    requires IndexOf(s, "<li>", 0) == Some(p) && Last(s, "</li>") == Some(q) && p + 4 <= q
    requires q + 5 <= |s| && e == ItemsEnd(s, q)
    ensures e <= |s| && ListWrap(markdown, s) == WrapList(markdown, s, p, e)
  {
  }

  /** Where the list pass finds its first item, its last item and the end
      of the white space after it. */
  lemma ItemBounds(s: string, pre: string, mid: string, ws: string, post: string, q: nat, e: nat)
    requires s == pre + "<li>" + mid + "</li>" + (ws + post)
    requires !Contains(pre, "<li>") && !Contains(post, "</li>")
    requires AllIn(Space, ws) && (|post| == 0 || !IsSpace(post[0]))
    requires q == |pre| + 4 + |mid| && e == q + 5 + |ws|
    ensures IndexOf(s, "<li>", 0) == Some(|pre|) && Last(s, "</li>") == Some(q)
    ensures q + 5 <= |s| && ItemsEnd(s, q) == e
  {
    var p := |pre|;
    UnrepeatedTags();
    Pieces(pre, "<li>", mid, "</li>", ws + post);
    NothingBefore(s, pre, "<li>", mid + "</li>" + (ws + post));
    IndexOfIs(s, "<li>", 0, p);
    AbsentAcross(ws, post, "</li>");
    NothingAfter(s, pre + "<li>" + mid, "</li>", ws + post);
    LastIs(s, "</li>", q);
    RunOf(ws, post, Space);
  }

  /** `</li>` starts with a character that is not white space, so it cannot
      straddle white space and what follows it. */
  lemma AbsentAcross(ws: string, post: string, pat: string)
    requires AllIn(Space, ws) && |pat| > 0 && !IsSpace(pat[0]) && !Contains(post, pat)
    ensures !Contains(ws + post, pat)
  {
    var t := ws + post;
    forall j: nat | j <= |t| ensures !OccursAt(t, pat, j) {
      if j < |ws| && j + |pat| <= |t| {
        assert t[j..j + |pat|][0] == ws[j];
      } else if |ws| <= j && j + |pat| <= |t| {
        assert t[j..j + |pat|] == post[j - |ws|..j - |ws| + |pat|];
        assert !OccursAt(post, pat, j - |ws|);
      }
    }
  }

  lemma WrapItems(s: string, pre: string, items: string, ws: string, post: string)
    requires s == pre + items + (ws + post)
    ensures |pre| + |items| + |ws| <= |s|
    ensures Wrap(s, |pre|, |pre| + |items| + |ws|, "<ol>", "</ol>") == pre + "<ol>" + (items + ws) + "</ol>" + post
    ensures Wrap(s, |pre|, |pre| + |items| + |ws|, "<ul>", "</ul>") == pre + "<ul>" + (items + ws) + "</ul>" + post
  {
    var e := |pre| + |items| + |ws|;
    assert s[..|pre|] == pre;
    assert s[|pre|..e] == items + ws;
    assert s[e..] == post;
  }
}
