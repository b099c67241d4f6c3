/** Characters and strings with the meaning JavaScript gives them: the `\s`,
    `\w` and `\d` classes of its regular expressions, its line terminators,
    and the `trim`, `split`, `join`, `startsWith`, `endsWith` and `includes`
    methods of its strings. */
module Text {

  datatype Option<T> = None | Some(value: T)

  /** `\s` in a JavaScript regular expression; also what `String.prototype.trim` removes. */
  predicate IsSpace(c: char) {
    || c == ' ' || c == '\t' || c == '\n' || c == '\r' || c == '\U{000B}' || c == '\U{000C}'
    || c == '\U{00A0}' || c == '\U{1680}' || ('\U{2000}' <= c <= '\U{200A}')
    || c == '\U{2028}' || c == '\U{2029}' || c == '\U{202F}' || c == '\U{205F}'
    || c == '\U{3000}' || c == '\U{FEFF}'
  }

  /** The characters `.` does not match and `^`/`$` see as line ends in multiline mode. */
  predicate IsLineTerminator(c: char) {
    c == '\n' || c == '\r' || c == '\U{2028}' || c == '\U{2029}'
  }

  /** `\w` */
  predicate IsWordChar(c: char) {
    ('a' <= c <= 'z') || ('A' <= c <= 'Z') || ('0' <= c <= '9') || c == '_'
  }

  /** `\d` */
  predicate IsDigit(c: char) {
    '0' <= c <= '9'
  }

  /** The character classes the converter's regular expressions repeat. */
  datatype CharClass =
    | Space          // \s
    | Word           // \w
    | Digit          // \d
    | Dot            // . without the s flag: anything but a line terminator
    | Other(c: char) // [^c]

  predicate InClass(k: CharClass, c: char) {
    match k
    case Space => IsSpace(c)
    case Word => IsWordChar(c)
    case Digit => IsDigit(c)
    case Dot => !IsLineTerminator(c)
    case Other(d) => c != d
  }

  predicate AllIn(k: CharClass, s: string) {
    forall i | 0 <= i < |s| :: InClass(k, s[i])
  }

  /** Length of the longest run of `k` characters at the start of `s`:
      what a greedy `k*` consumes there. */
  function Run(s: string, k: CharClass): (n: nat)
    ensures n <= |s|
    ensures forall j | 0 <= j < n :: InClass(k, s[j])
    ensures n == |s| || !InClass(k, s[n])
  {
    if |s| == 0 || !InClass(k, s[0]) then 0 else 1 + Run(s[1..], k)
  }

  /** A run is determined by where it stops. */
  lemma {:induction false} RunIs(s: string, k: CharClass, n: nat)
    requires n <= |s| && forall j | 0 <= j < n :: InClass(k, s[j])
    requires n == |s| || !InClass(k, s[n])
    ensures Run(s, k) == n
    decreases n
  {
    if n > 0 {
      forall j | 0 <= j < n - 1 ensures InClass(k, s[1..][j]) {
        assert s[1..][j] == s[j + 1];
      }
      RunIs(s[1..], k, n - 1);
    }
  }

  /** A run is determined by where it stops: text of class `k` followed by
      a character outside `k` (or nothing) is exactly one run. */
  lemma RunOf(a: string, b: string, k: CharClass)
    requires AllIn(k, a)
    requires |b| == 0 || !InClass(k, b[0])
    ensures Run(a + b, k) == |a|
  {
    var s := a + b;
    forall j | 0 <= j < |a| ensures InClass(k, s[j]) {
      assert s[j] == a[j];
    }
    if |b| > 0 {
      assert s[|a|] == b[0];
    }
  }

  predicate StartsWith(s: string, p: string) {
    |p| <= |s| && s[..|p|] == p
  }

  predicate EndsWith(s: string, p: string) {
    |p| <= |s| && s[|s| - |p|..] == p
  }

  /** `p` occurs in `s` at index `i`. */
  predicate OccursAt(s: string, p: string, i: nat) {
    i + |p| <= |s| && s[i..i + |p|] == p
  }

  lemma SliceOfSlice(s: string, c: nat, e: nat, i: nat, k: nat)
    requires c <= e <= |s| && i <= k <= e - c
    ensures s[c..e][i..k] == s[c + i..c + k]
  {
    assert |s[c..e][i..k]| == k - i;
    forall t | 0 <= t < k - i ensures s[c..e][i..k][t] == s[c + i..c + k][t] {
      assert s[c..e][i..k][t] == s[c..e][i + t] == s[c + i + t];
    }
  }

  /** `s.includes(p)` */
  predicate Contains(s: string, p: string) {
    exists i: nat | i <= |s| :: OccursAt(s, p, i)
  }

  /** `s.indexOf(p, from)`: the first occurrence at or after `from`. */
  function IndexOf(s: string, p: string, from: nat): (r: Option<nat>)
    ensures r.Some? ==> from <= r.value && OccursAt(s, p, r.value)
    ensures r.Some? ==> forall j: nat | from <= j < r.value :: !OccursAt(s, p, j)
    ensures r.None? ==> forall j: nat | from <= j :: !OccursAt(s, p, j)
    decreases |s| - from
  {
    if from + |p| > |s| then None
    else if OccursAt(s, p, from) then Some(from)
    else IndexOf(s, p, from + 1)
  }

  /** `p` occurs at `k` and nowhere from `from` up to `k`. */
  predicate FirstAt(s: string, p: string, from: nat, k: nat) {
    from <= k && OccursAt(s, p, k) && forall j: nat | from <= j < k :: !OccursAt(s, p, j)
  }

  /** The first occurrence at or after `from` is the one with none before it. */
  lemma IndexOfIs(s: string, p: string, from: nat, k: nat)
    requires FirstAt(s, p, from, k)
    ensures IndexOf(s, p, from) == Some(k)
  {
  }

  /** `s.lastIndexOf(p)`, searching down from index `upTo`. */
  function LastIndexOf(s: string, p: string, upTo: nat): (r: Option<nat>)
    ensures r.Some? ==> r.value <= upTo && OccursAt(s, p, r.value)
    ensures r.Some? ==> forall j: nat | r.value < j <= upTo :: !OccursAt(s, p, j)
    ensures r.None? ==> forall j: nat | j <= upTo :: !OccursAt(s, p, j)
    decreases upTo
  {
    if OccursAt(s, p, upTo) then Some(upTo)
    else if upTo == 0 then None
    else LastIndexOf(s, p, upTo - 1)
  }

  /** The last occurrence of `p` anywhere in `s`. */
  function Last(s: string, p: string): (r: Option<nat>)
    ensures r.Some? ==> OccursAt(s, p, r.value)
    ensures r.Some? ==> forall j: nat | r.value < j :: !OccursAt(s, p, j)
    ensures r.None? ==> !Contains(s, p)
  {
    LastIndexOf(s, p, |s|)
  }

  /** A pattern whose first character is missing from `s` does not occur in it. */
  lemma AbsentFirstChar(s: string, p: string)
    requires |p| > 0
    requires forall i | 0 <= i < |s| :: s[i] != p[0]
    ensures !Contains(s, p)
  {
    forall i: nat | i <= |s| ensures !OccursAt(s, p, i) {
      if i < |s| {
        assert i + |p| > |s| || s[i..i + |p|][0] == s[i];
      }
    }
  }

  /** A pattern one of whose characters is missing from `s` does not occur
      in it. */
  lemma AbsentChar(s: string, p: string, j: nat)
    requires j < |p|
    requires forall i | 0 <= i < |s| :: s[i] != p[j]
    ensures !Contains(s, p)
  {
    forall i: nat | i <= |s| ensures !OccursAt(s, p, i) {
      if i + |p| <= |s| {
        assert s[i..i + |p|][j] == s[i + j];
      }
    }
  }

  /** `trimStart` */
  function TrimStart(s: string): (r: string)
    ensures |r| <= |s| && r == s[|s| - |r|..]
    ensures forall i | 0 <= i < |s| - |r| :: IsSpace(s[i])
    ensures |r| > 0 ==> !IsSpace(r[0])
  {
    s[Run(s, Space)..]
  }

  /** `trimEnd` */
  function TrimEnd(s: string): (r: string)
    ensures |r| <= |s| && r == s[..|r|]
    ensures forall i | |r| <= i < |s| :: IsSpace(s[i])
    ensures |r| > 0 ==> !IsSpace(r[|r| - 1])
  {
    if |s| > 0 && IsSpace(s[|s| - 1]) then TrimEnd(s[..|s| - 1]) else s
  }

  /** `trim`: the slice of `s` between its leading and its trailing white space. */
  function Trim(s: string): (r: string)
    ensures |r| <= |s|
    ensures |r| > 0 ==> !IsSpace(r[0]) && !IsSpace(r[|r| - 1])
    ensures r == [] <==> AllIn(Space, s)
    ensures (|s| == 0 || (!IsSpace(s[0]) && !IsSpace(s[|s| - 1]))) ==> r == s
    ensures exists i, j | 0 <= i <= j <= |s| :: r == s[i..j] && AllIn(Space, s[..i]) && AllIn(Space, s[j..])
  {
    var t := TrimStart(s);
    var r := TrimEnd(t);
    Trimmed(s, t, r);
    r
  }

  /** What `trim` promises, from what its two halves do. */
  lemma Trimmed(s: string, t: string, r: string)
    requires t == TrimStart(s) && r == TrimEnd(t)
    ensures |r| <= |s|
    ensures |r| > 0 ==> !IsSpace(r[0]) && !IsSpace(r[|r| - 1])
    ensures r == [] <==> AllIn(Space, s)
    ensures (|s| == 0 || (!IsSpace(s[0]) && !IsSpace(s[|s| - 1]))) ==> r == s
    ensures exists i, j | 0 <= i <= j <= |s| :: r == s[i..j] && AllIn(Space, s[..i]) && AllIn(Space, s[j..])
  {
    assert r == [] ==> t == [];
    assert |s| > 0 && !IsSpace(s[0]) ==> t == s;
    var i := |s| - |t|;
    var j := i + |r|;
    TrimmedSlice(s, t, r, i, j);
  }

  /** Where the two halves of `trim` leave the result in the line. */
  lemma TrimmedSlice(s: string, t: string, r: string, i: nat, j: nat)
    requires |t| <= |s| && t == s[|s| - |t|..] && forall k | 0 <= k < |s| - |t| :: IsSpace(s[k])
    requires |r| <= |t| && r == t[..|r|] && forall k | |r| <= k < |t| :: IsSpace(t[k])
    requires i == |s| - |t| && j == i + |r|
    ensures j <= |s| && r == s[i..j] && AllIn(Space, s[..i]) && AllIn(Space, s[j..])
  {
    assert r == s[i..j];
    assert forall k | 0 <= k < |s| - j :: s[j..][k] == t[|r| + k];
  }

  /** Trimming keeps a slice of the text, so every class its characters
      belong to. */
  lemma TrimKeeps(s: string, k: CharClass)
    requires AllIn(k, s)
    ensures AllIn(k, Trim(s))
  {
    var t := TrimStart(s);
    assert AllIn(k, t);
    assert AllIn(k, TrimEnd(t));
  }

  lemma TrimIdempotent(s: string)
    ensures Trim(Trim(s)) == Trim(s)
  {
  }

  /** `s.split(c)` for a one-character separator. */
  function Split(s: string, c: char): (parts: seq<string>)
    ensures |parts| >= 1
    ensures forall i | 0 <= i < |parts| :: AllIn(Other(c), parts[i])
    decreases |s|
  {
    var k := Run(s, Other(c));
    if k == |s| then [s] else [s[..k]] + Split(s[k + 1..], c)
  }

  /** The pieces of a split are pieces of the text. */
  lemma {:induction false} SplitKeeps(s: string, c: char, k: CharClass)
    requires AllIn(k, s)
    ensures forall i | 0 <= i < |Split(s, c)| :: AllIn(k, Split(s, c)[i])
    decreases |s|
  {
    var n := Run(s, Other(c));
    if n < |s| {
      SplitKeeps(s[n + 1..], c, k);
      assert AllIn(k, s[..n]);
    }
  }

  /** `parts.join(sep)` */
  function Join(parts: seq<string>, sep: string): string
  {
    if |parts| == 0 then ""
    else if |parts| == 1 then parts[0]
    else parts[0] + sep + Join(parts[1..], sep)
  }

  /** Joining the pieces of a split with the separator gives the text back. */
  lemma {:induction false} JoinSplit(s: string, c: char)
    ensures Join(Split(s, c), [c]) == s
    decreases |s|
  {
    var k := Run(s, Other(c));
    if k < |s| {
      var rest := s[k + 1..];
      assert Split(s, c) == [s[..k]] + Split(rest, c);
      JoinCons(s[..k], Split(rest, c), [c]);
      JoinSplit(rest, c);
      assert s == s[..k] + [c] + rest;
    }
  }

  lemma JoinCons(head: string, tail: seq<string>, sep: string)
    requires |tail| >= 1
    ensures Join([head] + tail, sep) == head + sep + Join(tail, sep)
  {
    assert ([head] + tail)[1..] == tail;
  }

  /** Splitting a join of separator-free pieces gives the pieces back. */
  lemma {:induction false} SplitJoin(parts: seq<string>, c: char)
    requires |parts| >= 1
    requires forall i | 0 <= i < |parts| :: AllIn(Other(c), parts[i])
    ensures Split(Join(parts, [c]), c) == parts
    decreases |parts|
  {
    var s := Join(parts, [c]);
    if |parts| == 1 {
      RunOf(parts[0], [], Other(c));
      assert s == parts[0] + [];
    } else {
      var tail := Join(parts[1..], [c]);
      assert s == parts[0] + ([c] + tail);
      RunOf(parts[0], [c] + tail, Other(c));
      assert s[..|parts[0]|] == parts[0];
      assert s[|parts[0]| + 1..] == tail;
      SplitJoin(parts[1..], c);
      assert [parts[0]] + parts[1..] == parts;
    }
  }

  /** The decimal digits of `n`, as a template literal `${n}` prints a number. */
  function NatToString(n: nat): (r: string)
    ensures |r| > 0 && AllIn(Digit, r)
    ensures |r| > 1 ==> r[0] != '0'
  {
    if n < 10 then [DigitChar(n)] else NatToString(n / 10) + [DigitChar(n % 10)]
  }

  function DigitChar(d: nat): (c: char)
    requires d < 10
    ensures IsDigit(c)
  {
    ['0', '1', '2', '3', '4', '5', '6', '7', '8', '9'][d]
  }

  function DigitValue(c: char): nat
    requires IsDigit(c)
  {
    (c as int - '0' as int) as nat
  }

  /** Reads a string of decimal digits back as a number. */
  function ParseNat(s: string): nat
    requires AllIn(Digit, s)
  {
    if |s| == 0 then 0 else 10 * ParseNat(s[..|s| - 1]) + DigitValue(s[|s| - 1])
  }

  /** Printing a count and reading it back gives the count. */
  lemma {:induction false} ParsePrint(n: nat)
    ensures ParseNat(NatToString(n)) == n
  {
    var r := NatToString(n);
    if n < 10 {
      assert DigitValue(DigitChar(n)) == n;
    } else {
      ParsePrint(n / 10);
      assert r[..|r| - 1] == NatToString(n / 10);
      assert DigitValue(DigitChar(n % 10)) == n % 10;
    }
  }
}
