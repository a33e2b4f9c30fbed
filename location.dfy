/**
 * Location and page numbers in the middle segment of a metadata line, such as
 * `on page 12 | Location 171-172 |`, and the short location string a note is
 * annotated with (`loc.171-172, p.12`).
 *
 * `findall(...)[0]` is the leftmost match. For `[Llocation.]+ ([\d\-]+)` the
 * class run can only end where the space is, so a match exists at the first
 * space that has a class character before it and a digit or dash after it;
 * the group is then the whole digit-or-dash run. `[pP]age ([\d\-]+)` is read
 * the same way.
 */
module Location {
  import opened Wrappers
  import opened Text

  /** `[\d\-]`, with `\d` read as the ASCII digits. */
  predicate IsLocChar(c: char) {
    ('0' <= c <= '9') || c == '-'
  }

  predicate AllLocChars(s: string) {
    forall i :: 0 <= i < |s| ==> IsLocChar(s[i])
  }

  /** `[Llocation.]`. */
  predicate InLocClass(c: char) {
    c == 'L' || c == 'l' || c == 'o' || c == 'c' || c == 'a' || c == 't' || c == 'i' || c == 'n' || c == '.'
  }

  /** The end of the run of digits and dashes that starts at `i`. */
  function LocRunEnd(s: string, i: nat): (e: nat)
    requires i <= |s|
    ensures i <= e <= |s|
    ensures forall k :: i <= k < e ==> IsLocChar(s[k])
    ensures e < |s| ==> !IsLocChar(s[e])
    decreases |s| - i
  {
    if i == |s| || !IsLocChar(s[i]) then i else LocRunEnd(s, i + 1)
  }

  lemma {:induction false} LocRunEndUnique(s: string, i: nat, e: nat)
    requires i <= e <= |s|
    requires forall k :: i <= k < e ==> IsLocChar(s[k])
    requires e < |s| ==> !IsLocChar(s[e])
    ensures LocRunEnd(s, i) == e
  {
  }

  /** `[Llocation.]+ ` ends with the space at `e` and a number follows. */
  predicate LocAnchor(s: string, e: nat) {
    1 <= e && e + 1 < |s| && InLocClass(s[e - 1]) && s[e] == ' ' && IsLocChar(s[e + 1])
  }

  /** `[pP]age ` starts at `j` and a number follows. */
  predicate PageAnchor(s: string, j: nat) {
    j + 5 < |s| && (s[j] == 'p' || s[j] == 'P')
    && s[j + 1] == 'a' && s[j + 2] == 'g' && s[j + 3] == 'e' && s[j + 4] == ' '
    && IsLocChar(s[j + 5])
  }

  /** The first location anchor at or after `from`. */
  function FirstLocAnchor(s: string, from: nat): (r: Option<nat>)
    requires from <= |s|
    ensures r.Some? ==> from <= r.value && LocAnchor(s, r.value)
    ensures r.Some? ==> forall e :: from <= e < r.value ==> !LocAnchor(s, e)
    ensures r.None? ==> forall e :: from <= e ==> !LocAnchor(s, e)
    decreases |s| - from
  {
    if from == |s| then None
    else if LocAnchor(s, from) then Some(from)
    else FirstLocAnchor(s, from + 1)
  }

  /** The first page anchor at or after `from`. */
  function FirstPageAnchor(s: string, from: nat): (r: Option<nat>)
    requires from <= |s|
    ensures r.Some? ==> from <= r.value && PageAnchor(s, r.value)
    ensures r.Some? ==> forall j :: from <= j < r.value ==> !PageAnchor(s, j)
    ensures r.None? ==> forall j :: from <= j ==> !PageAnchor(s, j)
    decreases |s| - from
  {
    if from == |s| then None
    else if PageAnchor(s, from) then Some(from)
    else FirstPageAnchor(s, from + 1)
  }

  /**
   * `note_loc`: the group of the first `regex_loc` match in the middle
   * segment, or the empty string when there is none.
   */
  function FindLocation(s: string): (r: string)
    ensures AllLocChars(r)
    ensures r == [] <==> forall e :: !LocAnchor(s, e)
    ensures r != [] ==> exists e: nat :: && LocAnchor(s, e) && (forall e': nat :: e' < e ==> !LocAnchor(s, e'))
                                    && r == s[e + 1..LocRunEnd(s, e + 1)]
  {
    match FirstLocAnchor(s, 0)
    case None => []
    case Some(e) =>
      var r := s[e + 1..LocRunEnd(s, e + 1)];
      assert r[0] == s[e + 1];
      r
  }

  /**
   * `note_page`: the group of the first `regex_page` match in the middle
   * segment, or the empty string when there is none.
   */
  function FindPage(s: string): (r: string)
    ensures AllLocChars(r)
    ensures r == [] <==> forall j :: !PageAnchor(s, j)
    ensures r != [] ==> exists j: nat :: && PageAnchor(s, j) && (forall j': nat :: j' < j ==> !PageAnchor(s, j'))
                                    && r == s[j + 5..LocRunEnd(s, j + 5)]
  {
    match FirstPageAnchor(s, 0)
    case None => []
    case Some(j) =>
      var r := s[j + 5..LocRunEnd(s, j + 5)];
      assert r[0] == s[j + 5];
      r
  }

  /**
   * `locstr`: `loc.L`, `p.P`, `loc.L, p.P`, or empty, depending on which of
   * location and page were found.
   */
  function LocString(loc: string, page: string): string {
    var l := if loc != [] then "loc." + loc else [];
    if page != [] then (if loc != [] then l + ", " else l) + "p." + page else l
  }

  /** Reads a location string back into its location and page. */
  function SplitLocString(r: string): (string, string) {
    if |r| >= 2 && r[..2] == "p." then ([], r[2..])
    else if |r| >= 4 && r[..4] == "loc." then
      var rest := r[4..];
      match IndexOfComma(rest)
      case Some(i) => (rest[..i], if i + 4 <= |rest| then rest[i + 4..] else [])
      case None => (rest, [])
    else ([], [])
  }

  /** The first comma in `s`. */
  function IndexOfComma(s: string): (r: Option<nat>)
    ensures r.Some? ==> r.value < |s| && s[r.value] == ',' && ',' !in s[..r.value]
    ensures r.None? <==> ',' !in s
  {
    if s == [] then None
    else if s[0] == ',' then Some(0)
    else
      match IndexOfComma(s[1..])
      case Some(i) =>
        assert s[..i + 1] == [s[0]] + s[1..][..i];
        Some(i + 1)
      case None =>
        assert s == [s[0]] + s[1..];
        None
  }

  /** A number found in a metadata line holds no comma. */
  lemma {:induction false} NoCommaInLocChars(s: string)
    requires AllLocChars(s)
    ensures ',' !in s
  {
    forall i | 0 <= i < |s| ensures s[i] != ',' {
      assert IsLocChar(s[i]);
    }
  }

  /** Location and page are recovered from the location string built from them. */
  lemma {:induction false} LocStringRoundTrip(loc: string, page: string)
    requires AllLocChars(loc) && AllLocChars(page)
    ensures SplitLocString(LocString(loc, page)) == (loc, page)
  {
    var r := LocString(loc, page);
    NoCommaInLocChars(loc);
    if loc == [] {
      if page != [] {
        assert r == "p." + page;
        assert r[..2] == "p." && r[2..] == page;
      }
    } else {
      assert loc[0] != 'p' by { assert IsLocChar(loc[0]); }
      if page == [] {
        assert r == "loc." + loc;
        assert r[..2][0] == 'l';
        assert r[..4] == "loc." && r[4..] == loc;
      } else {
        var rest := loc + ", p." + page;
        assert r == "loc." + rest;
        assert r[..2][0] == 'l';
        assert r[..4] == "loc." && r[4..] == rest;
        assert rest[|loc|] == ',';
        assert rest[..|loc|] == loc;
        assert IndexOfComma(rest) == Some(|loc|);
        assert rest[|loc| + 4..] == page;
      }
    }
  }

  /**
   * The separator `, ` appears in the location string exactly when both a
   * location and a page were found.
   */
  lemma {:induction false} LocStringSeparator(loc: string, page: string)
    requires AllLocChars(loc) && AllLocChars(page)
    ensures (',' in LocString(loc, page)) <==> (loc != [] && page != [])
    ensures loc != [] && page != [] ==> OccursAt(LocString(loc, page), ", ", 4 + |loc|)
  {
    var r := LocString(loc, page);
    NoCommaInLocChars(loc);
    NoCommaInLocChars(page);
    if loc != [] && page != [] {
      assert r == "loc." + loc + ", " + "p." + page;
      assert r[4 + |loc|] == ',';
      assert r[4 + |loc|..4 + |loc| + 2] == ", ";
    } else if loc != [] {
      assert r == "loc." + loc;
      assert ',' !in "loc.";
    } else if page != [] {
      assert r == "p." + page;
      assert ',' !in "p.";
    }
  }

  /** No location anchor lies wholly inside `pre`. */
  predicate NoLocAnchorIn(pre: string) {
    forall e :: 1 <= e < |pre| - 1 ==> !(pre[e] == ' ' && InLocClass(pre[e - 1]) && IsLocChar(pre[e + 1]))
  }

  /**
   * After a prefix that holds no anchor and ends in a class character and a
   * space, the number that follows is the location.
   */
  lemma {:induction false} LocationAfterPrefix(pre: string, loc: string)
    requires |pre| >= 2 && pre[|pre| - 1] == ' ' && InLocClass(pre[|pre| - 2])
    requires NoLocAnchorIn(pre)
    requires loc != [] && AllLocChars(loc)
    ensures FindLocation(pre + loc + " |") == loc
  {
    var s := pre + loc + " |";
    var e := |pre| - 1;
    assert s[e - 1] == pre[e - 1] && s[e] == ' ' && s[e + 1] == loc[0];
    assert LocAnchor(s, e);
    forall e': nat | e' < e ensures !LocAnchor(s, e') {
      if 1 <= e' {
        assert s[e' - 1] == pre[e' - 1] && s[e'] == pre[e'] && s[e' + 1] == pre[e' + 1];
      }
    }
    forall k | e + 1 <= k < e + 1 + |loc| ensures IsLocChar(s[k]) {
      assert s[k] == loc[k - e - 1];
    }
    assert s[e + 1 + |loc|] == ' ';
    LocRunEndUnique(s, e + 1, e + 1 + |loc|);
    assert s[e + 1..e + 1 + |loc|] == loc;
  }

  /** The label `on Location ` holds no anchor and no `p`. */
  lemma {:induction false} LocationLabel()
    ensures NoLocAnchorIn("on Location ")
    ensures 'p' !in "on Location " && 'P' !in "on Location "
  {
    var pre := "on Location ";
    forall e | 1 <= e < |pre| - 1 ensures !(pre[e] == ' ' && InLocClass(pre[e - 1]) && IsLocChar(pre[e + 1])) {
      assert pre[e] != ' ' || pre[e + 1] == 'L';
    }
  }

  /** Numbers hold no `p`. */
  lemma {:induction false} NoPInLocChars(s: string)
    requires AllLocChars(s)
    ensures 'p' !in s && 'P' !in s
  {
    forall i | 0 <= i < |s| ensures s[i] != 'p' && s[i] != 'P' { assert IsLocChar(s[i]); }
  }

  /** `on Location L |`: the location is `L` and there is no page. */
  lemma {:induction false} LocationOnly(loc: string)
    requires loc != [] && AllLocChars(loc)
    ensures FindLocation("on Location " + loc + " |") == loc
    ensures FindPage("on Location " + loc + " |") == []
  {
    LocationLabel();
    LocationAfterPrefix("on Location ", loc);
    NoPInLocChars(loc);
    assert 'p' !in " |" && 'P' !in " |";
    NoPageWithoutP("on Location " + loc + " |");
  }

  /** Without a `p` or `P` there is no page. */
  lemma {:induction false} NoPageWithoutP(s: string)
    requires 'p' !in s && 'P' !in s
    ensures FindPage(s) == []
  {
    forall j: nat | j < |s| ensures s[j] != 'p' && s[j] != 'P' {
      assert s[j] in s;
    }
  }

  /** `on page P | Location L |`: the page is `P`. */
  lemma {:induction false} PageBeforeLocation(page: string, loc: string)
    requires page != [] && AllLocChars(page)
    ensures FindPage("on page " + page + " | Location " + loc + " |") == page
  {
    var s := "on page " + page + " | Location " + loc + " |";
    var n := |page|;
    assert s[3..8] == "page " && s[8] == page[0];
    assert PageAnchor(s, 3);
    forall j: nat | j < 3 ensures !PageAnchor(s, j) {
      assert s[j] == "on "[j];
    }
    forall k | 8 <= k < 8 + n ensures IsLocChar(s[k]) { assert s[k] == page[k - 8]; }
    assert s[8 + n] == ' ';
    LocRunEndUnique(s, 8, 8 + n);
    assert s[8..8 + n] == page;
  }

  /** `on page P | Location L |`: the location is `L`; the page number is not mistaken for it. */
  lemma {:induction false} LocationAfterPage(page: string, loc: string)
    requires page != [] && AllLocChars(page)
    requires loc != [] && AllLocChars(loc)
    ensures FindLocation("on page " + page + " | Location " + loc + " |") == loc
  {
    var pre := "on page " + page + " | Location ";
    var n := |page|;
    assert pre[..8] == "on page ";
    assert pre[8 + n..] == " | Location ";
    assert NoLocAnchorIn(pre) by {
      forall e | 1 <= e < |pre| - 1 ensures pre[e] != ' ' || !InLocClass(pre[e - 1]) || !IsLocChar(pre[e + 1]) {
        if e < 8 {
          assert pre[e] == "on page "[e] && pre[e - 1] == "on page "[e - 1];
          if e == 2 { assert pre[3] == 'p'; }
        } else if e < 8 + n {
          assert pre[e] == page[e - 8] && IsLocChar(page[e - 8]);
        } else {
          var k := e - (8 + n);
          assert pre[e] == " | Location "[k];
          if k == 0 { assert pre[e - 1] == page[n - 1] && IsLocChar(page[n - 1]); }
          if k == 2 { assert pre[e - 1] == '|'; }
        }
      }
    }
    assert pre[|pre| - 2] == 'n';
    LocationAfterPrefix(pre, loc);
    assert pre + loc + " |" == "on page " + page + " | Location " + loc + " |";
  }
}
