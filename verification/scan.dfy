/** `text.replace(regex, replacement)` with the global flag: the search
    starts at index 0; at the first index where the expression matches, the
    match is replaced and the search resumes right after it; characters where
    nothing matches are copied. */
module Scan {
  import opened Text
  import opened Match

  function ReplaceAll(p: Pattern, s: string): string
    decreases |s|
  {
    if |s| == 0 then ""
    else match MatchPrefix(p, s)
      case Some(h) => h.out + ReplaceAll(p, s[h.len..])
      case None => [s[0]] + ReplaceAll(p, s[1..])
  }

  /** No match of `p` starts at any index of `s`. */
  predicate Clean(p: Pattern, s: string) {
    forall k | 0 <= k < |s| :: MatchPrefix(p, s[k..]).None?
  }

  /** Where no match starts, the first character is copied. */
  lemma CopyFirst(p: Pattern, s: string)
    requires |s| > 0 && MatchPrefix(p, s).None?
    ensures ReplaceAll(p, s) == [s[0]] + ReplaceAll(p, s[1..])
  {
  }

  /** The same step with the text given in two parts. */
  lemma CopyFirstOf(p: Pattern, a: string, b: string)
    requires |a| > 0 && MatchPrefix(p, a + b).None?
    ensures ReplaceAll(p, a + b) == [a[0]] + ReplaceAll(p, a[1..] + b)
  {
    CopyFirst(p, a + b);
    assert (a + b)[1..] == a[1..] + b;
  }

  lemma ConsAppend(c: char, a: string, b: string)
    ensures [c] + (a + b) == ([c] + a) + b
  {
  }

  /** Dropping the first character of the prefix keeps it free of matches. */
  lemma CleanTail(p: Pattern, a: string, b: string)
    requires |a| > 0
    requires forall k | 0 <= k < |a| :: MatchPrefix(p, (a + b)[k..]).None?
    ensures forall k | 0 <= k < |a| - 1 :: MatchPrefix(p, (a[1..] + b)[k..]).None?
  {
    forall k | 0 <= k < |a| - 1 ensures MatchPrefix(p, (a[1..] + b)[k..]).None? {
      assert (a[1..] + b)[k..] == (a + b)[k + 1..];
    }
  }

  /** A prefix where no match starts is copied unchanged. */
  lemma {:induction false} SkipClean(p: Pattern, a: string, b: string)
    requires forall k | 0 <= k < |a| :: MatchPrefix(p, (a + b)[k..]).None?
    ensures ReplaceAll(p, a + b) == a + ReplaceAll(p, b)
    decreases |a|
  {
    if |a| == 0 {
      assert a + b == b;
    } else {
      assert (a + b)[0..] == a + b;
      CopyFirstOf(p, a, b);
      CleanTail(p, a, b);
      SkipClean(p, a[1..], b);
      ConsAppend(a[0], a[1..], ReplaceAll(p, b));
      assert [a[0]] + a[1..] == a;
    }
  }

  /** A text in which nothing matches is left as it is. */
  lemma CleanUnchanged(p: Pattern, s: string)
    requires Clean(p, s)
    ensures ReplaceAll(p, s) == s
  {
    assert s + [] == s;
    SkipClean(p, s, []);
  }

  /** A text without the first character of any match is left as it is. */
  lemma NoTriggerUnchanged(p: Pattern, s: string)
    requires forall i | 0 <= i < |s| :: s[i] != Trigger(p)
    ensures Clean(p, s)
    ensures ReplaceAll(p, s) == s
  {
    forall k | 0 <= k < |s| ensures MatchPrefix(p, s[k..]).None? {
      assert s[k..][0] == s[k];
    }
    CleanUnchanged(p, s);
  }

  /** A match at the start is replaced and the search resumes after it. */
  lemma HitFirst(p: Pattern, a: string, b: string, out: string)
    requires |a| > 0 && MatchPrefix(p, a + b) == Some(Hit(|a|, out))
    ensures ReplaceAll(p, a + b) == out + ReplaceAll(p, b)
  {
    assert (a + b)[|a|..] == b;
  }

  /** The passes that only delete (the empty-paragraph clean-up) never make
      a text longer, and leave its length alone only when nothing in it
      matches. */
  lemma {:induction false} DeletingShrinks(p: Pattern, s: string)
    requires p == EmptyParagraph || p == BlankParagraph
    ensures |ReplaceAll(p, s)| <= |s|
    ensures |ReplaceAll(p, s)| == |s| ==> Clean(p, s)
    decreases |s|
  {
    if |s| > 0 {
      match MatchPrefix(p, s)
      case Some(h) =>
        DeletingShrinks(p, s[h.len..]);
      case None =>
        DeletingShrinks(p, s[1..]);
        if |ReplaceAll(p, s)| == |s| {
          forall k | 0 <= k < |s| ensures MatchPrefix(p, s[k..]).None? {
            if k > 0 {
              assert s[k..] == s[1..][k - 1..];
            }
          }
        }
    }
  }
}
