/**
 * The title line of a clipping, `Title (Author)`, split into title and author
 * by the pattern `^(.*)\((.*)\)$`.
 */
module TitleLine {
  import opened Wrappers
  import opened Text

  /** The author recorded when the title line names none. */
  const Unknown := "Unknown"

  /** Index of the last occurrence of `c` in `s`. */
  function LastIndex(s: string, c: char): (r: Option<nat>)
    ensures r.Some? ==> r.value < |s| && s[r.value] == c
    ensures r.Some? ==> forall i :: r.value < i < |s| ==> s[i] != c
    ensures r.None? <==> c !in s
  {
    if s == [] then None
    else if s[|s| - 1] == c then Some(|s| - 1)
    else
      assert s == s[..|s| - 1] + [s[|s| - 1]];
      LastIndex(s[..|s| - 1], c)
  }

  /**
   * Title and author of a title line, both stripped. On one line `.` matches
   * every character, so the pattern matches exactly when the line ends with
   * `)` and holds a `(`; the greedy first group then stops at the LAST `(`.
   * Otherwise the whole line is the title and the author is `Unknown`.
   */
  function SplitTitle(key: string): (r: (string, string))
    requires '\n' !in key
    ensures IsStripped(r.0) && IsStripped(r.1)
    ensures HasAuthorPart(key) ==>
      exists i :: 0 <= i < |key| - 1 && key[i] == '(' && '(' !in key[i + 1..]
        && r == (Strip(key[..i]), Strip(key[i + 1..|key| - 1]))
    ensures !HasAuthorPart(key) ==> r == (Strip(key), Unknown)
  {
    if |key| > 0 && key[|key| - 1] == ')' then
      match LastIndex(key, '(')
      case Some(i) =>
        LastOpenParen(key, i);
        var r := (Strip(key[..i]), Strip(key[i + 1..|key| - 1]));
        assert key[i] == '(' && r == (Strip(key[..i]), Strip(key[i + 1..|key| - 1]));
        r
      case None =>
        assert !HasAuthorPart(key);
        UnknownStripped();
        (Strip(key), Unknown)
    else
      assert !HasAuthorPart(key);
      UnknownStripped();
      (Strip(key), Unknown)
  }

  /** The author recorded for a title line without one has no whitespace at either end. */
  lemma {:induction false} UnknownStripped()
    ensures IsStripped(Unknown)
  {
    assert Unknown[0] == 'U' && Unknown[|Unknown| - 1] == 'n';
  }

  /** The last `(` of a line ending in `)` comes before that `)`, with no `(` after it. */
  lemma {:induction false} LastOpenParen(key: string, i: nat)
    requires i < |key| && key[i] == '(' && key[|key| - 1] == ')'
    requires forall j :: i < j < |key| ==> key[j] != '('
    ensures HasAuthorPart(key) && i < |key| - 1 && '(' !in key[i + 1..]
  {
    var tail := key[i + 1..];
    forall j | 0 <= j < |tail| ensures tail[j] != '(' {
      assert tail[j] == key[i + 1 + j];
    }
  }

  /** The pattern `^(.*)\((.*)\)$` matches a single line. */
  predicate HasAuthorPart(key: string) {
    |key| > 0 && key[|key| - 1] == ')' && '(' in key
  }

  /** The title line a device writes, `<title> (<author>)`. */
  function TitleLineOf(title: string, author: string): string {
    title + " (" + author + ")"
  }

  /** An occurrence of `c` with none after it is the one `LastIndex` finds. */
  lemma {:induction false} LastIndexIs(s: string, c: char, p: nat)
    requires p < |s| && s[p] == c
    requires forall j :: p < j < |s| ==> s[j] != c
    ensures LastIndex(s, c) == Some(p)
    decreases |s|
  {
    if s[|s| - 1] != c {
      var init := s[..|s| - 1];
      LastIndexIs(init, c, p);
    }
  }

  /** When `(` sits at `p` and never after it, the split is made at `p`. */
  lemma {:induction false} SplitTitleAt(key: string, p: nat)
    requires '\n' !in key
    requires p < |key| - 1 && key[p] == '(' && key[|key| - 1] == ')'
    requires forall j :: p < j < |key| ==> key[j] != '('
    ensures SplitTitle(key) == (Strip(key[..p]), Strip(key[p + 1..|key| - 1]))
  {
    LastIndexIs(key, '(', p);
  }

  /**
   * Splitting recovers the title and the author of `<title> (<author>)`
   * whenever both are stripped and the author holds no `(`.
   */
  lemma {:induction false} SplitTitleRoundTrip(title: string, author: string)
    requires IsStripped(title) && IsStripped(author)
    requires '(' !in author && '\n' !in title && '\n' !in author
    ensures '\n' !in TitleLineOf(title, author)
    ensures SplitTitle(TitleLineOf(title, author)) == (title, author)
  {
    var key := TitleLineOf(title, author);
    var p := |title| + 1;
    TitleLineOneLine(title, author);
    TitleLineShape(title, author, key, p);
    SplitTitleAt(key, p);
    assert AllSpace(" ");
    StripSpaceAfter(title, " ");
    StripStripped(author);
  }

  /** The title line of a title and an author without newlines is one line. */
  lemma {:induction false} TitleLineOneLine(title: string, author: string)
    requires '\n' !in title && '\n' !in author
    ensures '\n' !in TitleLineOf(title, author)
  {
    assert '\n' !in " (" && '\n' !in ")";
  }

  /** In `<title> (<author>)` the last `(` sits at `p`, right after the title and a space. */
  lemma {:induction false} TitleLineShape(title: string, author: string, key: string, p: nat)
    requires '(' !in author
    requires key == TitleLineOf(title, author) && p == |title| + 1
    ensures p < |key| - 1 && key[p] == '(' && key[|key| - 1] == ')'
    ensures forall j :: p < j < |key| ==> key[j] != '('
    ensures key[..p] == title + " " && key[p + 1..|key| - 1] == author
  {
    assert key == title + " (" + author + ")";
    assert key[..p] == title + " ";
    assert key[p + 1..|key| - 1] == author;
    forall j | p < j < |key| ensures key[j] != '(' {
      if j < |key| - 1 { assert key[j] == author[j - p - 1]; }
    }
  }

  /** A title line written from a non-empty title has no whitespace at either end. */
  lemma {:induction false} TitleLineStripped(title: string, author: string)
    requires title != [] && IsStripped(title)
    ensures IsStripped(TitleLineOf(title, author))
  {
    var key := TitleLineOf(title, author);
    assert key[0] == title[0] && key[|key| - 1] == ')';
  }
}
