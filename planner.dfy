/**
 * Where a publication's notes go and the text written for them
 * (extract-kindle-clippings.py:55-58, 186-203, 221-235 and 249-255): the
 * short title, the output file name, the character filter applied to file
 * names, the section headers and the comment line before each note.
 */
module Planner {
  import opened Text
  import opened TitleLine

  /** The file that collects publications with at most two notes. */
  const ShortNotes := "short_notes.rst"

  /** `s` contains no occurrence of `sep`. */
  ghost predicate Lacks(s: string, sep: string) {
    forall i :: !OccursAt(s, sep, i)
  }

  /**
   * Lines 190-195: the title up to the first `|`, then up to the first
   * ` - `, then up to the first `. `, with every `?`, `:` and `*` removed.
   */
  function CleanTitle(title: string): (r: string)
    ensures '|' !in r && '?' !in r && ':' !in r && '*' !in r
    ensures |r| <= |title|
  {
    var s := Before(title, "|");
    BeforeOmitsSeparator(title, '|');
    var s' := Before(Before(s, " - "), ". ");
    var r := Remove(Remove(Remove(s', '?'), ':'), '*');
    RemoveKeepsOut(s', '?', '|');
    RemoveKeepsOut(Remove(s', '?'), ':', '|');
    RemoveKeepsOut(Remove(Remove(s', '?'), ':'), '*', '|');
    RemoveKeepsOut(Remove(s', '?'), ':', '?');
    RemoveKeepsOut(Remove(Remove(s', '?'), ':'), '*', '?');
    RemoveKeepsOut(Remove(Remove(s', '?'), ':'), '*', ':');
    assert |multiset(r)| <= |multiset(title)|;
    r
  }

  /**
   * Lines 190-197: the cleaned title, cut to 127 characters when it is
   * longer than 128. A title of exactly 128 characters is kept whole.
   */
  function ShortTitle(title: string): (r: string)
    ensures '|' !in r && '?' !in r && ':' !in r && '*' !in r
    ensures |r| <= 128
    ensures r <= CleanTitle(title)
    ensures |CleanTitle(title)| <= 128 ==> r == CleanTitle(title)
    ensures |CleanTitle(title)| > 128 ==> |r| == 127
  {
    var s := CleanTitle(title);
    if |s| > 128 then s[..127] else s
  }

  /** Removing a character the string does not hold changes nothing. */
  lemma {:induction false} RemoveAbsent(s: string, c: char)
    requires c !in s
    ensures Remove(s, c) == s
  {
    if s != [] {
      assert s[1..] == s[1..];
      RemoveAbsent(s[1..], c);
    }
  }

  /**
   * A title without separators, without the removed characters and no
   * longer than 128 characters is its own short title.
   */
  lemma {:induction false} ShortTitlePlain(title: string)
    requires Lacks(title, "|") && Lacks(title, " - ") && Lacks(title, ". ")
    requires '?' !in title && ':' !in title && '*' !in title
    requires |title| <= 128
    ensures ShortTitle(title) == title
  {
    assert Before(title, "|") == title;
    assert Before(title, " - ") == title;
    assert Before(title, ". ") == title;
    RemoveAbsent(title, '?');
    RemoveAbsent(title, ':');
    RemoveAbsent(title, '*');
  }

  /**
   * Lines 198-203: the file for a publication with `nr` notes: its own file,
   * named after author and short title, when it has more than two notes, and
   * the shared short-notes file otherwise.
   */
  function FileName(author: string, title: string, nr: nat): (r: string)
    ensures |r| >= 4 && r[|r| - 4..] == ".rst"
    ensures nr > 2 ==> |r| > |author| + 3 && r[..|author| + 3] == author + " - "
  {
    if nr > 2 then
      var name := author + " - ";
      var short := Strip(ShortTitle(title));
      PrefixSuffix(name, short, ".rst");
      name + short + ".rst"
    else ShortNotes
  }

  /** A concatenation starts with its first part and ends with its last. */
  lemma {:induction false} PrefixSuffix(p: string, m: string, e: string)
    ensures (p + m + e)[..|p|] == p && (p + m + e)[|p + m + e| - |e|..] == e
  {
    assert (p + m + e)[..|p|] == p;
    assert (p + m + e)[|p + m + e| - |e|..] == e;
  }

  /** The shared file is chosen exactly for publications with at most two notes. */
  lemma {:induction false} FileNameShared(author: string, title: string, nr: nat)
    ensures FileName(author, title, nr) == ShortNotes <==> nr <= 2
  {
    if nr > 2 {
      var r := FileName(author, title, nr);
      var p := author + " - ";
      assert r[..|p|] == p;
      assert r[|author|] == p[|author|] == ' ';
      ShortNotesUnspaced();
    }
  }

  lemma {:induction false} ShortNotesUnspaced()
    ensures ' ' !in ShortNotes
  {
  }

  /** The characters of `\w` (ASCII letters, digits and `_`). */
  predicate IsWordChar(c: char) {
    'a' <= c <= 'z' || 'A' <= c <= 'Z' || '0' <= c <= '9' || c == '_'
  }

  /** The characters `getvalidfilename` keeps: `[\w\s()'.?!:-]`. */
  predicate IsFileNameChar(c: char) {
    IsWordChar(c) || IsSpace(c) || c in {'(', ')', '\'', '.', '?', '!', ':', '-'}
  }

  /**
   * Lines 55-58 after normalisation: every character outside the allowed
   * set is deleted. No `/` survives, so the name never leaves the output
   * directory.
   */
  function ValidFileName(s: string): (r: string)
    ensures forall i :: 0 <= i < |r| ==> IsFileNameChar(r[i])
    ensures '/' !in r
    ensures |r| <= |s|
  {
    if s == [] then []
    else if IsFileNameChar(s[0]) then [s[0]] + ValidFileName(s[1..])
    else ValidFileName(s[1..])
  }

  /** Every allowed character is kept as often as it occurs, and every other one is deleted. */
  lemma {:induction false} ValidFileNameCounts(s: string)
    ensures forall c :: multiset(ValidFileName(s))[c] == if IsFileNameChar(c) then multiset(s)[c] else 0
  {
    if s != [] {
      assert s == [s[0]] + s[1..];
      ValidFileNameCounts(s[1..]);
    }
  }

  /** A character outside the allowed set is deleted, not replaced. */
  lemma {:induction false} ValidFileNameDrops(c: char)
    requires !IsFileNameChar(c)
    ensures ValidFileName([c]) == []
  {
    assert [c][1..] == [];
  }

  /** The filter works character by character. */
  lemma {:induction false} ValidFileNameConcat(a: string, b: string)
    ensures ValidFileName(a + b) == ValidFileName(a) + ValidFileName(b)
  {
    if a != [] {
      assert (a + b)[0] == a[0] && (a + b)[1..] == a[1..] + b;
      ValidFileNameConcat(a[1..], b);
      if IsFileNameChar(a[0]) {
        assert [a[0]] + (ValidFileName(a[1..]) + ValidFileName(b)) == ([a[0]] + ValidFileName(a[1..])) + ValidFileName(b);
      }
    } else {
      assert a + b == b;
    }
  }

  /** A name made only of allowed characters passes unchanged. */
  lemma {:induction false} ValidFileNameKeeps(s: string)
    requires forall i :: 0 <= i < |s| ==> IsFileNameChar(s[i])
    ensures ValidFileName(s) == s
  {
    if s != [] {
      ValidFileNameKeeps(s[1..]);
    }
  }

  /** Filtering twice is filtering once. */
  lemma {:induction false} ValidFileNameIdempotent(s: string)
    ensures ValidFileName(ValidFileName(s)) == ValidFileName(s)
  {
    ValidFileNameKeeps(ValidFileName(s));
  }

  /** The `.rst` extension survives the filter. */
  lemma {:induction false} ValidFileNameExtension(s: string)
    requires |s| >= 4 && s[|s| - 4..] == ".rst"
    ensures var r := ValidFileName(s); |r| >= 4 && r[|r| - 4..] == ".rst"
  {
    var stem := s[..|s| - 4];
    assert s == stem + ".rst";
    ValidFileNameConcat(stem, ".rst");
    ValidFileNameKeeps(".rst");
  }

  /** Lines 223-226: the heading of a publication in the short-notes file. */
  function ShortHeading(author: string, title: string): string {
    if author != Unknown then author + " - " + title else title
  }

  /** Line 231: the heading of a publication's own file. */
  function LongHeading(title: string): string {
    "Highlights from " + title
  }

  /**
   * A reStructuredText section title: the heading line, then an underline
   * of `c` exactly as long as the heading, then an empty line.
   */
  function Section(heading: string, c: char): (r: string)
    ensures |r| == 2 * |heading| + 3
    ensures r[..|heading|] == heading && r[|heading|] == '\n'
    ensures forall i :: |heading| < i <= 2 * |heading| ==> r[i] == c
    ensures r[|r| - 2..] == "\n\n"
  {
    heading + "\n" + Repeat(c, |heading|) + "\n\n"
  }

  /**
   * Lines 221-235: what is written before the notes of a publication. The
   * short-notes file gets a subsection per publication; a publication's own
   * file gets a title and an `:authors:` field only when it does not exist
   * yet; otherwise nothing.
   */
  function Header(short: bool, present: bool, author: string, title: string): (r: string)
    ensures r == [] <==> !short && present
    ensures r != [] ==> r[|r| - 1] == '\n'
  {
    if short then Section(ShortHeading(author, title), '-')
    else if !present then
      Section(LongHeading(title), '=') + (if author != Unknown then ":authors: " + author + "\n\n" else "")
    else ""
  }

  /**
   * Lines 249-252: the comment line before a note. It starts with `.. `, the
   * note hash and ` ; `; in the short-notes file it also names author and
   * title.
   */
  function Comment(hash: string, noteType: string, loc: string, date: string,
                   short: bool, author: string, title: string): (r: string)
    ensures |r| >= |hash| + 4 && r[..|hash| + 4] == ".. " + hash + " "
  {
    var c := ".. " + hash + " ; " + noteType + " ; " + loc + " ; " + date;
    var r := if short then c + " ; " + author + " ; " + title else c;
    assert r[..|hash| + 4] == c[..|hash| + 4];
    r
  }

  /** Lines 254-255: a note as written: its comment line, then its text, each followed by an empty line. */
  function Entry(hash: string, noteType: string, loc: string, date: string,
                 short: bool, author: string, title: string, text: string): (r: string)
    ensures |r| >= |hash| + 4 && r[..|hash| + 4] == ".. " + hash + " "
    ensures r[|r| - 1] == '\n'
  {
    var c := Comment(hash, noteType, loc, date, short, author, title);
    var r := c + "\n\n" + text + "\n\n";
    assert r[..|hash| + 4] == c[..|hash| + 4];
    r
  }
}
