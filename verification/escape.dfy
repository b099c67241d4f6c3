/** HTML escaping of fenced code (build-node.js, the chain of five global
    replacements inside the fenced-code callback). */
module HtmlEscape {
  import opened Text

  /** The escape of one character. */
  function EscapeChar(c: char): string {
    if c == '&' then "&amp;"
    else if c == '<' then "&lt;"
    else if c == '>' then "&gt;"
    else if c == '"' then "&quot;"
    else if c == '\'' then "&#39;"
    else [c]
  }

  /** A character HTML would read as markup or as an attribute delimiter. */
  predicate IsMarkupChar(c: char) {
    c == '<' || c == '>' || c == '"' || c == '\''
  }

  predicate NoRawMarkup(s: string) {
    forall i | 0 <= i < |s| :: !IsMarkupChar(s[i])
  }

  /** Text the escaper leaves as it is. */
  predicate Plain(s: string) {
    forall i | 0 <= i < |s| :: !IsMarkupChar(s[i]) && s[i] != '&'
  }

  lemma PlainAppend(a: string, b: string)
    requires Plain(a) && Plain(b)
    ensures Plain(a + b)
  {
    forall i | 0 <= i < |a + b| ensures !IsMarkupChar((a + b)[i]) && (a + b)[i] != '&' {
      if i >= |a| {
        assert (a + b)[i] == b[i - |a|];
      }
    }
  }

  /** Character-wise escaping: the reference meaning of the five replacements. */
  function EscapeHtml(s: string): (r: string)
    ensures NoRawMarkup(r)
    ensures |r| >= |s|
    ensures Plain(s) ==> r == s
  {
    if |s| == 0 then "" else EscapeChar(s[0]) + EscapeHtml(s[1..])
  }

  /** `s.replace(/c/g, rep)`: every occurrence of one character replaced. */
  function ReplaceChar(s: string, c: char, rep: string): string {
    if |s| == 0 then ""
    else (if s[0] == c then rep else [s[0]]) + ReplaceChar(s[1..], c, rep)
  }

  /** One global replacement: every `target` becomes `entity`. */
  datatype Pass = Pass(target: char, entity: string)

  /** The five replacements in the order the converter applies them: `&` first. */
  const Passes: seq<Pass> :=
    [Pass('&', "&amp;"), Pass('<', "&lt;"), Pass('>', "&gt;"), Pass('"', "&quot;"), Pass('\'', "&#39;")]

  function ApplyPasses(s: string, ps: seq<Pass>): string
    decreases |ps|
  {
    if |ps| == 0 then s else ApplyPasses(ReplaceChar(s, ps[0].target, ps[0].entity), ps[1..])
  }

  /** The converter's chain of five replacements. */
  function EscapeAsWritten(s: string): string {
    ApplyPasses(s, Passes)
  }

  lemma {:induction false} ReplaceCharAppend(a: string, b: string, c: char, rep: string)
    ensures ReplaceChar(a + b, c, rep) == ReplaceChar(a, c, rep) + ReplaceChar(b, c, rep)
    decreases |a|
  {
    if |a| > 0 {
      ReplaceCharAppend(a[1..], b, c, rep);
      assert (a + b)[1..] == a[1..] + b;
    } else {
      assert a + b == b;
    }
  }

  lemma ReplaceCharAbsent(s: string, c: char, rep: string)
    requires forall i | 0 <= i < |s| :: s[i] != c
    ensures ReplaceChar(s, c, rep) == s
  {
  }

  /** Passes applied one after the other distribute over concatenation. */
  lemma {:induction false} ApplyPassesAppend(a: string, b: string, ps: seq<Pass>)
    ensures ApplyPasses(a + b, ps) == ApplyPasses(a, ps) + ApplyPasses(b, ps)
    decreases |ps|
  {
    if |ps| > 0 {
      var t, e := ps[0].target, ps[0].entity;
      ReplaceCharAppend(a, b, t, e);
      ApplyPassesAppend(ReplaceChar(a, t, e), ReplaceChar(b, t, e), ps[1..]);
    }
  }

  /** Because `&` is replaced first, no later replacement touches the
      entities an earlier one produced: the chain escapes each character
      independently of its neighbours. */
  lemma {:induction false} EscapeAsWrittenIsCharwise(s: string)
    ensures EscapeAsWritten(s) == EscapeHtml(s)
    decreases |s|
  {
    if |s| > 0 {
      assert s == [s[0]] + s[1..];
      ApplyPassesAppend([s[0]], s[1..], Passes);
      EscapeAsWrittenIsCharwise(s[1..]);
      EscapeOneChar(s[0]);
    }
  }

  lemma ReplaceCharSingle(c: char, x: char, rep: string)
    ensures ReplaceChar([c], x, rep) == if c == x then rep else [c]
  {
    assert [c][1..] == [];
  }

  /** No pass rewrites a character an earlier pass produced. */
  predicate Independent(ps: seq<Pass>) {
    forall i, j, k | 0 <= i < j < |ps| && 0 <= k < |ps[i].entity| :: ps[i].entity[k] != ps[j].target
  }

  /** What the first pass for `c` makes of it; `c` itself when none is. */
  function Lookup(c: char, ps: seq<Pass>): string
    decreases |ps|
  {
    if |ps| == 0 then [c] else if ps[0].target == c then ps[0].entity else Lookup(c, ps[1..])
  }

  lemma {:induction false} ApplyAbsent(s: string, ps: seq<Pass>)
    requires forall j, k | 0 <= j < |ps| && 0 <= k < |s| :: s[k] != ps[j].target
    ensures ApplyPasses(s, ps) == s
    decreases |ps|
  {
    if |ps| > 0 {
      ReplaceCharAbsent(s, ps[0].target, ps[0].entity);
      ApplyAbsent(s, ps[1..]);
    }
  }

  /** Independent passes turn a character into what the first pass for it
      makes of it. */
  lemma {:induction false} ApplySingle(c: char, ps: seq<Pass>)
    requires Independent(ps)
    ensures ApplyPasses([c], ps) == Lookup(c, ps)
    decreases |ps|
  {
    if |ps| > 0 {
      ReplaceCharSingle(c, ps[0].target, ps[0].entity);
      var rest := ps[1..];
      if ps[0].target == c {
        forall j, k | 0 <= j < |rest| && 0 <= k < |ps[0].entity| ensures ps[0].entity[k] != rest[j].target {
          assert rest[j] == ps[j + 1];
        }
        ApplyAbsent(ps[0].entity, rest);
      } else {
        forall i, j, k | 0 <= i < j < |rest| && 0 <= k < |rest[i].entity|
          ensures rest[i].entity[k] != rest[j].target
        {
          assert rest[i] == ps[i + 1] && rest[j] == ps[j + 1];
        }
        ApplySingle(c, rest);
      }
    }
  }

  lemma PassesIndependent()
    ensures Independent(Passes)
  {
  }

  lemma LookupPasses(c: char)
    ensures Lookup(c, Passes) == EscapeChar(c)
  {
  }

  lemma EscapeOneChar(c: char)
    ensures EscapeAsWritten([c]) == EscapeChar(c)
  {
    PassesIndependent();
    ApplySingle(c, Passes);
    LookupPasses(c);
  }

  /** Escaping `&` after `<` would escape the entity `&lt;` a second time. */
  lemma AmpersandMustComeFirst()
    ensures ReplaceChar(ReplaceChar("<", '<', "&lt;"), '&', "&amp;") == "&amp;lt;"
    ensures EscapeAsWritten("<") == "&lt;"
  {
    ReplaceCharSingle('<', '<', "&lt;");
    EscapeOneChar('<');
  }

  /** Decoding of the five entities the escaper produces. */
  function Unescape(s: string): string
    decreases |s|
  {
    if |s| == 0 then ""
    else if StartsWith(s, "&amp;") then "&" + Unescape(s[5..])
    else if StartsWith(s, "&lt;") then "<" + Unescape(s[4..])
    else if StartsWith(s, "&gt;") then ">" + Unescape(s[4..])
    else if StartsWith(s, "&quot;") then "\"" + Unescape(s[6..])
    else if StartsWith(s, "&#39;") then "'" + Unescape(s[5..])
    else [s[0]] + Unescape(s[1..])
  }

  /** Text that does not begin with `&` begins with no entity. */
  lemma UnescapePlain(t: string)
    requires |t| > 0 && t[0] != '&'
    ensures Unescape(t) == [t[0]] + Unescape(t[1..])
  {
    assert !StartsWith(t, "&amp;") && !StartsWith(t, "&lt;") && !StartsWith(t, "&gt;");
    assert !StartsWith(t, "&quot;") && !StartsWith(t, "&#39;");
  }

  lemma UnescapeEntity(e: string, c: char, rest: string)
    requires c in "&<>\"'" && e == EscapeChar(c)
    ensures Unescape(e + rest) == [c] + Unescape(rest)
  {
    var t := e + rest;
    assert t[..|e|] == e;
    assert t[|e|..] == rest;
    assert t[0] == '&' && t[1] == e[1];
    if c == '&' {
      assert StartsWith(t, "&amp;");
    } else if c == '<' {
      assert !StartsWith(t, "&amp;");
      assert StartsWith(t, "&lt;");
    } else if c == '>' {
      assert !StartsWith(t, "&amp;") && !StartsWith(t, "&lt;");
      assert StartsWith(t, "&gt;");
    } else if c == '"' {
      assert !StartsWith(t, "&amp;") && !StartsWith(t, "&lt;") && !StartsWith(t, "&gt;");
      assert StartsWith(t, "&quot;");
    } else {
      assert !StartsWith(t, "&amp;") && !StartsWith(t, "&lt;") && !StartsWith(t, "&gt;");
      assert !StartsWith(t, "&quot;");
      assert StartsWith(t, "&#39;");
    }
  }

  /** Decoding the escape of one character gives that character back. */
  lemma UnescapeHead(c: char, rest: string)
    ensures Unescape(EscapeChar(c) + rest) == [c] + Unescape(rest)
  {
    if c in "&<>\"'" {
      UnescapeEntity(EscapeChar(c), c, rest);
    } else {
      UnescapePlain([c] + rest);
      assert ([c] + rest)[1..] == rest;
    }
  }

  /** Escaping loses nothing: decoding the entities restores the code. */
  lemma {:induction false} UnescapeEscape(s: string)
    ensures Unescape(EscapeHtml(s)) == s
    decreases |s|
  {
    if |s| > 0 {
      UnescapeEscape(s[1..]);
      UnescapeHead(s[0], EscapeHtml(s[1..]));
      assert s == [s[0]] + s[1..];
    }
  }
}
