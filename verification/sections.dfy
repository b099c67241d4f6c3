/** The pure core of the section combiner (build-node.js:446-501): the
    markdown files of the sections directory, sorted by name, are appended to
    a fixed front matter header, each as a line feed, its content, a line
    feed and a separator; the last separator is then removed again. The
    directory listing, the file contents and the date are inputs. */
module Sections {
  import opened Text

  /** A file of the sections directory: its name and its content. */
  datatype Entry = Entry(name: string, content: string)

  /** What the combiner produces: the combined document, or the error it
      reports and exits with when there is no section file. */
  datatype Outcome = Combined(text: string) | NoSectionFiles

  /** `file.endsWith('.md')` */
  predicate IsMarkdown(e: Entry) {
    EndsWith(e.name, ".md")
  }

  /** The front matter block the combined document starts with
      (build-node.js:454-474); only the date varies. */
  function Header(date: string): (h: string)
    ensures StartsWith(h, "---\n") && EndsWith(h, "---\n\n")
  {
    var h := "---\n"
      + "title: \"Jack Jin - Personal Site\"\n"
      + "subtitle: \"Technical Architecture Documentation\"\n"
      + "author: \"Jack Jin\"\n"
      + "date: \"" + date + "\"\n"
      + "titlepage: true\n"
      + "toc: true\n"
      + "toc-depth: 2\n"
      + "geometry: margin=1in\n"
      + "fontsize: 11pt\n"
      + "header-includes:\n"
      + "  - \\usepackage{helvet}\n"
      + "  - \\renewcommand{\\familydefault}{\\sfdefault}\n"
      + "  - \\let\\sourcesanspro\\relax\n"
      + "colorlinks: true\n"
      + "linkcolor: blue\n"
      + "urlcolor: blue\n"
      + "toccolor: black\n"
      + Separator;
    assert h[..4] == "---\n";
    assert h[|h| - 5..] == Separator;
    h
  }

  /** The separator written after every section: a rule line and a blank
      line. */
  const Separator: string := "---\n\n"

  // ---------------------------------------------------------------------
  // Selecting the section files

  /** `.filter(file => file.endsWith('.md'))`, keeping the listing's order. */
  function MarkdownFiles(listing: seq<Entry>): (r: seq<Entry>)
    ensures forall i | 0 <= i < |r| :: IsMarkdown(r[i])
    ensures forall e :: e in r <==> e in listing && IsMarkdown(e)
    ensures |r| == 0 <==> forall i | 0 <= i < |listing| :: !IsMarkdown(listing[i])
  {
    if |listing| == 0 then []
    else if IsMarkdown(listing[0]) then [listing[0]] + MarkdownFiles(listing[1..])
    else MarkdownFiles(listing[1..])
  }

  /** The filter only drops entries: no entry comes out more often than it
      is listed. */
  lemma {:induction false} MarkdownFilesDropOnly(listing: seq<Entry>)
    ensures multiset(MarkdownFiles(listing)) <= multiset(listing)
    decreases |listing|
  {
    if |listing| > 0 {
      MarkdownFilesDropOnly(listing[1..]);
      assert listing == [listing[0]] + listing[1..];
    }
  }

  /** Lexicographic order of names, character by character, a name before
      every longer name it is a prefix of: the order of the default
      `sort()`. */
  predicate NameLe(a: string, b: string)
    decreases |a|
  {
    |a| == 0 || (|b| > 0 && (a[0] < b[0] || (a[0] == b[0] && NameLe(a[1..], b[1..]))))
  }

  lemma {:induction false} NameLeTotal(a: string, b: string)
    ensures NameLe(a, b) || NameLe(b, a)
    decreases |a|
  {
    if |a| > 0 && |b| > 0 && a[0] == b[0] {
      NameLeTotal(a[1..], b[1..]);
    }
  }

  lemma {:induction false} NameLeTrans(a: string, b: string, c: string)
    requires NameLe(a, b) && NameLe(b, c)
    ensures NameLe(a, c)
    decreases |a|
  {
    if |a| > 0 && a[0] == b[0] && b[0] == c[0] {
      NameLeTrans(a[1..], b[1..], c[1..]);
    }
  }

  lemma {:induction false} NameLeAntisymmetric(a: string, b: string)
    requires NameLe(a, b) && NameLe(b, a)
    ensures a == b
    decreases |a|
  {
    if |a| > 0 {
      NameLeAntisymmetric(a[1..], b[1..]);
      assert a == [a[0]] + a[1..] && b == [b[0]] + b[1..];
    }
  }

  predicate SortedByName(s: seq<Entry>) {
    forall i, j | 0 <= i < j < |s| :: NameLe(s[i].name, s[j].name)
  }

  /** `e` in front of the first entry of `s` whose name is not smaller. */
  function Insert(e: Entry, s: seq<Entry>): (r: seq<Entry>)
    requires SortedByName(s)
    ensures SortedByName(r)
    ensures multiset(r) == multiset(s) + multiset{e}
  {
    if |s| == 0 then [e]
    else if NameLe(e.name, s[0].name) then
      InsertFront(e, s);
      [e] + s
    else
      var t := Insert(e, s[1..]);
      InsertAfter(e, s, t);
      [s[0]] + t
  }

  /** An entry no later than every entry of a sorted sequence can lead it. */
  lemma ConsSorted(h: Entry, t: seq<Entry>)
    requires SortedByName(t) && forall j | 0 <= j < |t| :: NameLe(h.name, t[j].name)
    ensures SortedByName([h] + t)
  {
    var r := [h] + t;
    forall i, j | 0 <= i < j < |r| ensures NameLe(r[i].name, r[j].name) {
      assert r[j] == t[j - 1];
      if i > 0 {
        assert r[i] == t[i - 1];
      }
    }
  }

  lemma InsertFront(e: Entry, s: seq<Entry>)
    requires SortedByName(s) && |s| > 0 && NameLe(e.name, s[0].name)
    ensures SortedByName([e] + s)
  {
    forall j | 0 <= j < |s| ensures NameLe(e.name, s[j].name) {
      if j > 0 {
        NameLeTrans(e.name, s[0].name, s[j].name);
      }
    }
    ConsSorted(e, s);
  }

  lemma InsertAfter(e: Entry, s: seq<Entry>, t: seq<Entry>)
    requires SortedByName(s) && |s| > 0 && !NameLe(e.name, s[0].name)
    requires SortedByName(t) && multiset(t) == multiset(s[1..]) + multiset{e}
    ensures SortedByName([s[0]] + t)
    ensures multiset([s[0]] + t) == multiset(s) + multiset{e}
  {
    assert s == [s[0]] + s[1..];
    NameLeTotal(e.name, s[0].name);
    forall j | 0 <= j < |t| ensures NameLe(s[0].name, t[j].name) {
      assert t[j] in multiset(t);
      assert t[j] in multiset(s[1..]) + multiset{e};
      if t[j] != e {
        assert t[j] in s[1..];
      }
    }
    ConsSorted(s[0], t);
  }

  /** `.sort()`: insertion sort by name. */
  function SortByName(s: seq<Entry>): (r: seq<Entry>)
    ensures SortedByName(r)
    ensures multiset(r) == multiset(s)
  {
    if |s| == 0 then []
    else
      assert s == [s[0]] + s[1..];
      Insert(s[0], SortByName(s[1..]))
  }

  lemma {:induction false} NameLeRefl(a: string)
    ensures NameLe(a, a)
    decreases |a|
  {
    if |a| > 0 {
      NameLeRefl(a[1..]);
    }
  }

  /** The first entry of a sorted sequence comes no later than any. */
  lemma FirstIsLeast(s: seq<Entry>, k: nat)
    requires SortedByName(s) && k < |s|
    ensures NameLe(s[0].name, s[k].name)
  {
    if k == 0 {
      NameLeRefl(s[0].name);
    }
  }

  lemma SameTail(a: seq<Entry>, b: seq<Entry>)
    requires |a| > 0 && |b| > 0 && a[0] == b[0] && multiset(a) == multiset(b)
    ensures multiset(a[1..]) == multiset(b[1..])
  {
    assert a == [a[0]] + a[1..] && b == [b[0]] + b[1..];
    assert multiset(a[1..]) == multiset(a) - multiset{a[0]};
    assert multiset(b[1..]) == multiset(b) - multiset{b[0]};
  }

  /** Two sortings of the same files agree: file names in a directory are
      distinct, so the sorted order is the only one. */
  lemma {:induction false} SortedUnique(a: seq<Entry>, b: seq<Entry>)
    requires SortedByName(a) && SortedByName(b) && multiset(a) == multiset(b)
    requires forall i, j | 0 <= i < j < |a| :: a[i].name != a[j].name
    ensures a == b
    decreases |a|
  {
    assert |a| == |multiset(a)| == |multiset(b)| == |b|;
    if |a| > 0 {
      assert a[0] in multiset(b) && b[0] in multiset(a);
      var i :| 0 <= i < |b| && b[i] == a[0];
      var j :| 0 <= j < |a| && a[j] == b[0];
      FirstIsLeast(a, j);
      FirstIsLeast(b, i);
      NameLeAntisymmetric(a[0].name, b[0].name);
      assert a[0].name == a[j].name;
      assert j == 0 && a[0] == b[0];
      SameTail(a, b);
      SortedUnique(a[1..], b[1..]);
    }
  }

  // ---------------------------------------------------------------------
  // Concatenation

  /** What a section contributes before its separator. */
  function Piece(e: Entry): string {
    "\n" + e.content + "\n"
  }

  /** The sections' pieces, in order. */
  function Pieces(files: seq<Entry>): (r: seq<string>)
    ensures |r| == |files| && forall i | 0 <= i < |files| :: r[i] == Piece(files[i])
  {
    if |files| == 0 then [] else Pieces(files[..|files| - 1]) + [Piece(files[|files| - 1])]
  }

  /** `combinedContent` after the loop has handled `files`. */
  function Appended(files: seq<Entry>): string {
    if |files| == 0 then ""
    else Appended(files[..|files| - 1]) + Piece(files[|files| - 1]) + Separator
  }

  /** `.replace(/---\n\n$/, '')`: without the multiline flag `$` is the end
      of the text, so at most the last five characters go. */
  function StripSeparator(s: string): (r: string)
    ensures EndsWith(s, Separator) ==> r + Separator == s
    ensures !EndsWith(s, Separator) ==> r == s
  {
    if EndsWith(s, Separator) then s[..|s| - 5] else s
  }

  lemma {:induction false} JoinSnoc(ps: seq<string>, p: string, sep: string)
    requires |ps| > 0
    ensures Join(ps + [p], sep) == Join(ps, sep) + sep + p
    decreases |ps|
  {
    if |ps| == 1 {
      assert (ps + [p])[1..] == [p];
    } else {
      assert (ps + [p])[1..] == ps[1..] + [p];
      JoinSnoc(ps[1..], p, sep);
    }
  }

  /** Appending a separator after every section and removing the last one
      separates the sections by one separator each. */
  lemma {:induction false} AppendedJoins(files: seq<Entry>)
    requires |files| > 0
    ensures Appended(files) == Join(Pieces(files), Separator) + Separator
    decreases |files|
  {
    var n := |files|;
    var init := files[..n - 1];
    if n > 1 {
      AppendedJoins(init);
      assert init[..n - 2] == files[..n - 2];
      JoinSnoc(Pieces(init), Piece(files[n - 1]), Separator);
    } else {
      assert Pieces(files) == [Piece(files[0])];
    }
  }

  /** The loop of build-node.js:489-498 followed by the removal of the last
      separator (build-node.js:501). */
  method Concatenate(header: string, files: seq<Entry>) returns (text: string)
    requires |files| > 0
    ensures text == header + Join(Pieces(files), Separator)
  {
    text := header;
    var i := 0;
    while i < |files|
      invariant 0 <= i <= |files|
      invariant text == header + Appended(files[..i])
    {
      text := text + "\n" + files[i].content + "\n" + "---\n" + "\n";
      assert files[..i + 1][..i] == files[..i];
      i := i + 1;
    }
    assert files[..i] == files;
    AppendedJoins(files);
    var joined := Join(Pieces(files), Separator);
    assert text == (header + joined) + Separator;
    text := StripSeparator(text);
  }

  /** `combineSections` without its output: the section files in name order,
      each once, separated by one separator, after the header; no section
      file is an error. */
  method CombineSections(date: string, listing: seq<Entry>) returns (r: Outcome)
    ensures r == NoSectionFiles <==> forall i | 0 <= i < |listing| :: !IsMarkdown(listing[i])
    ensures r.Combined? ==>
      exists files: seq<Entry> ::
        && SortedByName(files)
        && multiset(files) == multiset(MarkdownFiles(listing))
        && r.text == Header(date) + Join(Pieces(files), Separator)
  {
    var files := SortByName(MarkdownFiles(listing));
    if |files| == 0 {
      return NoSectionFiles;
    }
    var text := Concatenate(Header(date), files);
    r := Combined(text);
  }
}
