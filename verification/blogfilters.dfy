/** The rules of the blog page's filter bar (js/blog-filters.js): three filter
    dimensions combined with AND, each either the wildcard "all" or one
    value; the count of visible posts and the message reporting it; the
    reset of every dimension; and the order of the posts, latest first. The
    page's elements are replaced by a sequence of item records and by the
    page state the functions compute. */
module BlogFilters {
  import opened Text

  /** A post of the blog grid: its `data-topic`, `data-type` and
      `data-media` attributes and its `data-date` as a time value. */
  datatype Item = Item(topic: string, kind: string, media: string, date: int)

  /** `currentFilters` */
  datatype Criteria = Criteria(topic: string, kind: string, media: string)

  /** The three filter dimensions a button's `data-filter` can name. */
  datatype Dimension = Topic | Type | Media

  const All: string := "all"

  /** The criteria on page load and after `clearAllFilters`. */
  const Cleared: Criteria := Criteria(All, All, All)

  function Criterion(c: Criteria, d: Dimension): string {
    match d
    case Topic => c.topic
    case Type => c.kind
    case Media => c.media
  }

  function Attribute(item: Item, d: Dimension): string {
    match d
    case Topic => item.topic
    case Type => item.kind
    case Media => item.media
  }

  /** One dimension's test: the wildcard, or the item's own value. */
  predicate Accepts(filter: string, value: string) {
    filter == All || value == filter
  }

  /** `topicMatch && typeMatch && mediaMatch` */
  predicate Matches(c: Criteria, item: Item) {
    Accepts(c.topic, item.topic) && Accepts(c.kind, item.kind) && Accepts(c.media, item.media)
  }

  /** An item is shown exactly when every dimension accepts it. */
  lemma MatchesEveryDimension(c: Criteria, item: Item)
    ensures Matches(c, item) <==> forall d: Dimension :: Accepts(Criterion(c, d), Attribute(item, d))
  {
    if !Matches(c, item) {
      if !Accepts(c.topic, item.topic) {
        assert !Accepts(Criterion(c, Topic), Attribute(item, Topic));
      } else if !Accepts(c.kind, item.kind) {
        assert !Accepts(Criterion(c, Type), Attribute(item, Type));
      } else {
        assert !Accepts(Criterion(c, Media), Attribute(item, Media));
      }
    }
  }

  // ---------------------------------------------------------------------
  // Clicking a filter button

  /** The dimension a button's `data-filter` names, if any. */
  function DimensionNamed(filterType: string): (r: Option<Dimension>)
    ensures r == Some(Topic) <==> filterType == "topic"
    ensures r == Some(Type) <==> filterType == "type"
    ensures r == Some(Media) <==> filterType == "media"
  {
    if filterType == "topic" then Some(Topic)
    else if filterType == "type" then Some(Type)
    else if filterType == "media" then Some(Media)
    else None
  }

  /** `currentFilters[filterType] = filterValue`: the named dimension takes
      the button's value and the other two keep theirs. A name that is none
      of the three adds a property no test reads, so the criteria as the
      filters see them stay as they were. */
  function Click(c: Criteria, filterType: string, value: string): (r: Criteria)
    ensures forall d: Dimension ::
      Criterion(r, d) == (if DimensionNamed(filterType) == Some(d) then value else Criterion(c, d))
  {
    match DimensionNamed(filterType)
    case Some(Topic) => c.(topic := value)
    case Some(Type) => c.(kind := value)
    case Some(Media) => c.(media := value)
    case None => c
  }

  /** Choosing "all" in a dimension stops that dimension from hiding
      anything: the item is shown iff the other two accept it. */
  lemma ClickAll(c: Criteria, d: Dimension, filterType: string, item: Item)
    requires DimensionNamed(filterType) == Some(d)
    ensures Matches(Click(c, filterType, All), item) <==>
      forall e: Dimension | e != d :: Accepts(Criterion(c, e), Attribute(item, e))
  {
    var r := Click(c, filterType, All);
    MatchesEveryDimension(r, item);
    assert Criterion(r, d) == All;
    forall e: Dimension | e != d ensures Criterion(r, e) == Criterion(c, e) {
    }
  }

  // ---------------------------------------------------------------------
  // Counting and showing

  /** The number of items the criteria let through. */
  function CountMatches(c: Criteria, items: seq<Item>): (n: nat)
    ensures n <= |items|
  {
    if |items| == 0 then 0
    else CountMatches(c, items[..|items| - 1]) + (if Matches(c, items[|items| - 1]) then 1 else 0)
  }

  /** No post is counted exactly when none matches, and all are exactly
      when all match. */
  lemma {:induction false} CountExtremes(c: Criteria, items: seq<Item>)
    ensures CountMatches(c, items) == 0 <==> forall i | 0 <= i < |items| :: !Matches(c, items[i])
    ensures CountMatches(c, items) == |items| <==> forall i | 0 <= i < |items| :: Matches(c, items[i])
    decreases |items|
  {
    if |items| > 0 {
      var init := items[..|items| - 1];
      CountExtremes(c, init);
      assert forall i | 0 <= i < |init| :: init[i] == items[i];
    }
  }

  /** Counting one more post adds one exactly when it matches. */
  lemma CountStep(c: Criteria, items: seq<Item>, i: nat)
    requires i < |items|
    ensures CountMatches(c, items[..i + 1]) == CountMatches(c, items[..i]) + (if Matches(c, items[i]) then 1 else 0)
  {
    assert items[..i + 1][..i] == items[..i];
  }

  /** `resultCount.textContent` once `showing` of `total` posts are shown. */
  function ResultMessage(showing: nat, total: nat): (m: string)
    ensures StartsWith(m, MessageStart) && EndsWith(m, MessageEnd)
    ensures StartsWith(m, MessageStart + "all ") <==> showing == total
  {
    var m := if showing == total then MessageStart + "all " + NatToString(total) + MessageEnd
      else MessageStart + NatToString(showing) + " of " + NatToString(total) + MessageEnd;
    assert m[..8] == MessageStart;
    assert m[|m| - 24..] == MessageEnd;
    if showing == total then m
    else
      assert m[8] == NatToString(showing)[0];
      assert m[..12][8] == m[8];
      m
  }

  const MessageStart: string := "Showing "
  const MessageEnd: string := " posts, sorted by latest"

  /** `updateResultCount(visibleCount)`: without a count (page load) every
      post counts as shown. */
  function UpdateResultCount(visibleCount: Option<nat>, total: nat): (m: string)
    ensures visibleCount.None? ==> StartsWith(m, MessageStart + "all ")
    ensures visibleCount.None? ==> m == ResultMessage(total, total)
    ensures visibleCount.Some? ==> m == ResultMessage(visibleCount.value, total)
  {
    ResultMessage(if visibleCount.Some? then visibleCount.value else total, total)
  }

  /** Reads a result message back: the counts it reports. */
  function ReadResultMessage(m: string): Option<(nat, nat)> {
    if !(StartsWith(m, MessageStart) && EndsWith(m, MessageEnd) && |m| >= 32) then None
    else
      var words := Split(m[8..|m| - 24], ' ');
      if |words| == 2 && words[0] == "all" && AllIn(Digit, words[1]) then
        Some((ParseNat(words[1]), ParseNat(words[1])))
      else if |words| == 3 && words[1] == "of" && AllIn(Digit, words[0]) && AllIn(Digit, words[2]) then
        Some((ParseNat(words[0]), ParseNat(words[2])))
      else None
  }

  lemma DigitsHaveNoSpace(s: string)
    requires AllIn(Digit, s)
    ensures AllIn(Other(' '), s)
  {
  }

  /** The words between "Showing " and " posts". */
  function MessageWords(showing: nat, total: nat): seq<string> {
    if showing == total then ["all", NatToString(total)]
    else [NatToString(showing), "of", NatToString(total)]
  }

  lemma JoinTwo(a: string, b: string, sep: string)
    ensures Join([a, b], sep) == a + sep + b
  {
    assert [a, b][1..] == [b];
  }

  lemma JoinThree(a: string, b: string, c: string, sep: string)
    ensures Join([a, b, c], sep) == a + sep + b + sep + c
  {
    assert [a, b, c][1..] == [b, c];
    JoinTwo(b, c, sep);
  }

  lemma MessageIsWords(showing: nat, total: nat)
    ensures ResultMessage(showing, total) == MessageStart + Join(MessageWords(showing, total), " ") + MessageEnd
  {
    if showing == total {
      AllMessageIsWords(total, NatToString(total));
    } else {
      SomeMessageIsWords(showing, total, NatToString(showing), NatToString(total));
    }
  }

  lemma AllMessageIsWords(total: nat, t: string)
    requires t == NatToString(total)
    ensures ResultMessage(total, total) == MessageStart + Join(["all", t], " ") + MessageEnd
  {
    JoinTwo("all", t, " ");
  }

  lemma SomeMessageIsWords(showing: nat, total: nat, s: string, t: string)
    requires showing != total && s == NatToString(showing) && t == NatToString(total)
    ensures ResultMessage(showing, total) == MessageStart + Join([s, "of", t], " ") + MessageEnd
  {
    JoinThree(s, "of", t, " ");
    Regroup(MessageStart, s, " ", "of", " ", " of ", t, MessageEnd);
  }

  lemma Regroup(p: string, s: string, m1: string, m2: string, m3: string, mid: string, t: string, e: string)
    requires mid == m1 + m2 + m3
    ensures p + s + mid + t + e == p + (s + m1 + m2 + m3 + t) + e
  {
  }

  lemma MiddleOf(start: string, middle: string, end: string)
    requires start == MessageStart && end == MessageEnd
    ensures (start + middle + end)[8..|start + middle + end| - 24] == middle
  {
  }

  lemma WordsRead(showing: nat, total: nat)
    ensures Split(Join(MessageWords(showing, total), " "), ' ') == MessageWords(showing, total)
  {
    var words := MessageWords(showing, total);
    DigitsHaveNoSpace(NatToString(showing));
    DigitsHaveNoSpace(NatToString(total));
    assert forall i | 0 <= i < |words| :: AllIn(Other(' '), words[i]);
    SplitJoin(words, ' ');
  }

  /** The message states the two counts it was made from. */
  lemma {:induction false} ReadMessage(showing: nat, total: nat)
    ensures ReadResultMessage(ResultMessage(showing, total)) == Some((showing, total))
  {
    var m := ResultMessage(showing, total);
    var words := MessageWords(showing, total);
    MessageIsWords(showing, total);
    MiddleOf(MessageStart, Join(words, " "), MessageEnd);
    WordsRead(showing, total);
    ParsePrint(showing);
    ParsePrint(total);
  }

  // ---------------------------------------------------------------------
  // Applying the filters

  /** What `applyFilters` leaves on the page: which items are displayed,
      how many, the result message and whether the no-results notice is
      displayed. */
  datatype Page = Page(visible: seq<bool>, visibleCount: nat, resultCount: string, noResults: bool)

  /** `applyFilters` over the items in page order. */
  method ApplyFilters(c: Criteria, items: seq<Item>) returns (page: Page)
    ensures |page.visible| == |items|
    ensures forall i | 0 <= i < |items| :: page.visible[i] <==> Matches(c, items[i])
    ensures page.visibleCount == CountMatches(c, items)
    ensures page.resultCount == ResultMessage(page.visibleCount, |items|)
    ensures page.noResults <==> forall i | 0 <= i < |items| :: !Matches(c, items[i])
  {
    var visible, visibleCount := ShowMatching(c, items);
    CountExtremes(c, items);
    var message := UpdateResultCount(Some(visibleCount), |items|);
    page := Page(visible, visibleCount, message, visibleCount == 0);
  }

  /** The loop over the posts: each shown exactly when it matches, and the
      shown ones counted. */
  method ShowMatching(c: Criteria, items: seq<Item>) returns (visible: seq<bool>, visibleCount: nat)
    ensures |visible| == |items|
    ensures forall i | 0 <= i < |items| :: visible[i] <==> Matches(c, items[i])
    ensures visibleCount == CountMatches(c, items)
  {
    visible := [];
    visibleCount := 0;
    var i := 0;
    while i < |items|
      invariant 0 <= i <= |items|
      invariant |visible| == i
      invariant forall j | 0 <= j < i :: visible[j] == Matches(c, items[j])
      invariant visibleCount == CountMatches(c, items[..i])
    {
      var shown := Matches(c, items[i]);
      CountStep(c, items, i);
      visible := visible + [shown];
      visibleCount := visibleCount + (if shown then 1 else 0);
      i := i + 1;
    }
    assert items[..i] == items;
  }

  /** `clearAllFilters`: every dimension back to "all", so every post is
      shown and the message reports all of them. */
  method ClearAllFilters(items: seq<Item>) returns (c: Criteria, page: Page)
    ensures forall d: Dimension :: Criterion(c, d) == All
    ensures |page.visible| == |items| && forall i | 0 <= i < |items| :: page.visible[i]
    ensures page.visibleCount == |items|
    ensures page.noResults <==> |items| == 0
    ensures page.resultCount == ResultMessage(|items|, |items|)
    ensures ReadResultMessage(page.resultCount) == Some((|items|, |items|))
  {
    c := Cleared;
    page := ApplyFilters(c, items);
    CountExtremes(c, items);
    ReadMessage(page.visibleCount, |items|);
  }

  /** Three posts on topics a, b and a: choosing topic "a" shows two of them
      and hides the one on b. */
  lemma TopicScenario(items: seq<Item>, a: string, b: string)
    requires a == "a" && b == "b"
    requires |items| == 3 && items[0].topic == a && items[1].topic == b && items[2].topic == a
    ensures !Matches(Click(Cleared, "topic", a), items[1])
    ensures CountMatches(Click(Cleared, "topic", a), items) == 2
  {
    var c := Click(Cleared, "topic", a);
    assert c == Criteria(a, All, All);
    assert items[..0] == [] && items[..3] == items;
    CountStep(c, items, 0);
    CountStep(c, items, 1);
    CountStep(c, items, 2);
  }

  // ---------------------------------------------------------------------
  // Latest first

  /** Each post is at least as recent as the next. */
  predicate LatestFirst(s: seq<Item>) {
    forall i | 0 <= i < |s| - 1 :: s[i].date >= s[i + 1].date
  }

  /** `e` in front of the first post that is not more recent than it, so
      that posts of the same date keep their order. */
  function InsertByDate(e: Item, s: seq<Item>): (r: seq<Item>)
    requires LatestFirst(s)
    ensures LatestFirst(r)
    ensures multiset(r) == multiset(s) + multiset{e}
    ensures |r| > 0 && (r[0] == e || (|s| > 0 && r[0] == s[0]))
  {
    if |s| == 0 || s[0].date <= e.date then [e] + s
    else
      assert s == [s[0]] + s[1..];
      [s[0]] + InsertByDate(e, s[1..])
  }

  /** `blogItems.sort((a, b) => new Date(b.dataset.date) - new Date(a.dataset.date))`:
      a stable sort, latest first. */
  function SortByLatest(s: seq<Item>): (r: seq<Item>)
    ensures LatestFirst(r)
    ensures multiset(r) == multiset(s)
  {
    if |s| == 0 then []
    else
      assert s == [s[0]] + s[1..];
      InsertByDate(s[0], SortByLatest(s[1..]))
  }

  /** The posts of one date, in order. */
  function OfDate(date: int, s: seq<Item>): (r: seq<Item>)
    ensures forall i | 0 <= i < |r| :: r[i].date == date
  {
    if |s| == 0 then []
    else OfDateOne(date, s[0]) + OfDate(date, s[1..])
  }

  lemma OfDateCons(date: int, x: Item, t: seq<Item>)
    ensures OfDate(date, [x] + t) == OfDateOne(date, x) + OfDate(date, t)
  {
    assert ([x] + t)[1..] == t;
  }

  lemma {:induction false} InsertKeepsDates(date: int, e: Item, s: seq<Item>)
    requires LatestFirst(s)
    ensures OfDate(date, InsertByDate(e, s)) == OfDateOne(date, e) + OfDate(date, s)
    decreases |s|
  {
    if |s| == 0 || s[0].date <= e.date {
      OfDateCons(date, e, s);
    } else {
      var t := InsertByDate(e, s[1..]);
      assert InsertByDate(e, s) == [s[0]] + t;
      InsertKeepsDates(date, e, s[1..]);
      OfDateCons(date, s[0], t);
      assert s == [s[0]] + s[1..];
      OfDateCons(date, s[0], s[1..]);
      SwapDisjoint(OfDateOne(date, e), OfDateOne(date, s[0]), OfDate(date, s[1..]));
    }
  }

  /** `[x]` when `x` has the date, nothing otherwise. */
  function OfDateOne(date: int, x: Item): seq<Item> {
    if x.date == date then [x] else []
  }

  lemma SwapDisjoint(a: seq<Item>, b: seq<Item>, rest: seq<Item>)
    requires a == [] || b == []
    ensures a + (b + rest) == b + (a + rest)
  {
  }

  /** Sorting is stable: the posts of any one date keep their page order. */
  lemma {:induction false} SortKeepsDates(date: int, s: seq<Item>)
    ensures OfDate(date, SortByLatest(s)) == OfDate(date, s)
    decreases |s|
  {
    if |s| > 0 {
      SortKeepsDates(date, s[1..]);
      InsertKeepsDates(date, s[0], SortByLatest(s[1..]));
    }
  }

  /** The page after it loads: the posts latest first and the message
      counting all of them. */
  method LoadPage(items: seq<Item>) returns (sorted: seq<Item>, resultCount: string)
    ensures LatestFirst(sorted) && multiset(sorted) == multiset(items)
    ensures forall date: int :: OfDate(date, sorted) == OfDate(date, items)
    ensures resultCount == UpdateResultCount(None, |items|)
    ensures resultCount == ResultMessage(|items|, |items|)
    ensures ReadResultMessage(resultCount) == Some((|items|, |items|))
  {
    sorted := SortByLatest(items);
    forall date: int ensures OfDate(date, sorted) == OfDate(date, items) {
      SortKeepsDates(date, items);
    }
    resultCount := UpdateResultCount(None, |sorted|);
    assert |sorted| == |multiset(sorted)| == |items|;
    ReadMessage(|items|, |items|);
  }
}
