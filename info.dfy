/**
 * The metadata line of a clipping, for example
 * `- Your Highlight on Location 120-121 | Added on Sunday, 1 January 2023 10:00:00`,
 * matched against `^-\s*\S* (\S+) (.*)[\s|]+Added on\s+(.+)$`.
 *
 * Python's matcher backtracks through the greedy quantifiers in order; the
 * functions below write out the match it finds. Working through the pattern
 * from the left:
 *  - `\S*` is followed by a literal space, so it can only end where its
 *    non-space run ends; the same holds for the type group `(\S+)`.
 *  - `\s*` first takes its whole run. Only if everything after that fails
 *    does it give back the last character, which must then be the space
 *    before the type, with `\S*` empty (any shorter `\s*` leaves a space
 *    where the type must start).
 *  - `[\s|]+` is followed by `A`, so it ends where its run ends; the greedy
 *    middle group `(.*)` therefore ends one character before the LAST
 *    `Added on` that is preceded by a space or `|` and followed by a space and
 *    at least one more character.
 *  - `\s+` takes its whole run unless that run reaches the end of the line, in
 *    which case it leaves one character for the date group `(.+)`.
 * The line is a single stripped line, so `.` matches every character in it.
 */
module InfoLine {
  import opened Wrappers
  import opened Text

  /** The three groups: note type, the middle segment holding location and page, and the date. */
  datatype Info = Info(noteType: string, middle: string, date: string)

  const AddedOn := "Added on"

  /** The class `[\s|]`. */
  predicate IsGap(c: char) { IsSpace(c) || c == '|' }

  /** `Added on` at `q` can complete the pattern: `[\s|]` before it, then `\s`, then one more character. */
  predicate AnchorAt(s: string, q: nat) {
    1 <= q && q + 9 < |s| && IsGap(s[q - 1]) && OccursAt(s, AddedOn, q) && IsSpace(s[q + 8])
  }

  /** The last anchor in `[lo, hi)`. */
  function LastAnchor(s: string, lo: nat, hi: nat): (r: Option<nat>)
    requires hi <= |s|
    ensures r.Some? ==> lo <= r.value < hi && AnchorAt(s, r.value)
    ensures r.Some? ==> forall q :: r.value < q < hi ==> !AnchorAt(s, q)
    ensures r.None? ==> forall q :: lo <= q < hi ==> !AnchorAt(s, q)
    decreases hi
  {
    if hi <= lo then None
    else if AnchorAt(s, hi - 1) then Some(hi - 1)
    else LastAnchor(s, lo, hi - 1)
  }

  /** Where the date group starts after the anchor at `q`. */
  function DateStart(s: string, q: nat): (d: nat)
    requires AnchorAt(s, q)
    ensures q + 9 <= d < |s|
    ensures forall k :: q + 8 <= k < d ==> IsSpace(s[k])
    ensures d == |s| - 1 || !IsSpace(s[d])
  {
    var a := SpaceEnd(s, q + 8);
    if a < |s| then a else |s| - 1
  }

  /** The rest of the pattern, ` (\S+) (.*)[\s|]+Added on\s+(.+)$`, with its first space at `x`. */
  function MatchFrom(s: string, x: nat): (r: Option<Info>)
    requires x <= |s|
  {
    if x < |s| && s[x] == ' ' then
      var t := WordEnd(s, x + 1);
      if t > x + 1 && t < |s| && s[t] == ' ' then
        match LastAnchor(s, t + 2, |s|)
        case Some(q) => Some(Groups(s, x, t, q))
        case None => None
      else None
    else None
  }

  /** The three groups, once the type ends at `t` and the anchor sits at `q`. */
  function Groups(s: string, x: nat, t: nat, q: nat): (m: Info)
    requires x + 1 < t < q - 1 && AnchorAt(s, q)
    ensures m.noteType == s[x + 1..t]
    ensures 0 < |m.date| <= |s| && s[|s| - |m.date|..] == m.date
  {
    var d := DateStart(s, q);
    assert s[|s| - |s[d..]|..] == s[d..];
    Info(s[x + 1..t], s[t + 1..q - 1], s[d..])
  }

  /**
   * The groups of `regex_info` on a metadata line, or `None` when it does not
   * match (the source then indexes an empty list and stops).
   */
  function MatchInfo(s: string): (r: Option<Info>)
    requires '\n' !in s
  {
    if s == [] || s[0] != '-' then None
    else
      var w := SpaceEnd(s, 1);
      var x := WordEnd(s, w);
      match MatchFrom(s, x)
      case Some(m) => Some(m)
      case None => if w >= 2 && s[w - 1] == ' ' then MatchFrom(s, w - 1) else None
  }

  /** What a successful match from `x` yields: a nonempty type without spaces, and a date that ends the line. */
  lemma {:induction false} MatchFromShape(s: string, x: nat)
    requires x <= |s|
    ensures var r := MatchFrom(s, x);
            r.Some? ==> && |r.value.noteType| > 0 && NoSpace(r.value.noteType)
                        && 0 < |r.value.date| <= |s| && s[|s| - |r.value.date|..] == r.value.date
  {
    if x < |s| && s[x] == ' ' {
      var t := WordEnd(s, x + 1);
      if t > x + 1 && t < |s| && s[t] == ' ' {
        var noteType := s[x + 1..t];
        forall k | 0 <= k < |noteType| ensures !IsSpace(noteType[k]) {
          assert noteType[k] == s[x + 1 + k];
        }
      }
    }
  }

  /**
   * What a matching metadata line yields: the line starts with `-`, the type
   * is a nonempty word, and the date is a nonempty tail of the line.
   */
  lemma {:induction false} MatchInfoShape(s: string)
    requires '\n' !in s
    ensures var r := MatchInfo(s);
            r.Some? ==> && |s| > 0 && s[0] == '-'
                        && |r.value.noteType| > 0 && NoSpace(r.value.noteType)
                        && 0 < |r.value.date| <= |s| && s[|s| - |r.value.date|..] == r.value.date
  {
    if s != [] && s[0] == '-' {
      var w := SpaceEnd(s, 1);
      var x := WordEnd(s, w);
      MatchFromShape(s, x);
      if w >= 2 { MatchFromShape(s, w - 1); }
    }
  }

  /** Without `Added on` anywhere the metadata line never matches: the run stops. */
  lemma {:induction false} NoAddedOnNoMatch(s: string)
    requires '\n' !in s
    requires forall q :: !OccursAt(s, AddedOn, q)
    ensures MatchInfo(s) == None
  {
    forall x: nat | x <= |s| ensures MatchFrom(s, x) == None {
      if x < |s| && s[x] == ' ' {
        var t := WordEnd(s, x + 1);
        if t > x + 1 && t < |s| && s[t] == ' ' {
          assert LastAnchor(s, t + 2, |s|) == None;
        }
      }
    }
  }

  /** The metadata line a device writes. */
  function InfoLineOf(token: string, noteType: string, middle: string, date: string): string {
    InfoHead(token, noteType) + InfoTail(middle, date)
  }

  /** `- <token> <type> `: the part of a metadata line before the middle segment. */
  function InfoHead(token: string, noteType: string): string {
    "- " + token + " " + noteType + " "
  }

  /** `<middle> | Added on <date>`: the rest of a metadata line. */
  function InfoTail(middle: string, date: string): string {
    middle + " | " + AddedOn + " " + date
  }

  /** Anchors are found the same way inside a suffix, shifted by the prefix length. */
  lemma {:induction false} AnchorShift(p: string, r: string, j: nat)
    requires 1 <= j
    ensures AnchorAt(p + r, |p| + j) <==> AnchorAt(r, j)
  {
    var s := p + r;
    if |p| + j + 9 < |s| {
      assert s[|p| + j - 1] == r[j - 1];
      assert s[|p| + j + 8] == r[j + 8];
      assert s[|p| + j..|p| + j + 8] == r[j..j + 8];
    }
  }

  /** An anchor with no anchor after it is the one `LastAnchor` finds. */
  lemma {:induction false} LastAnchorIs(s: string, lo: nat, hi: nat, q: nat)
    requires hi <= |s| && lo <= q < hi && AnchorAt(s, q)
    requires forall q' :: q < q' < hi ==> !AnchorAt(s, q')
    ensures LastAnchor(s, lo, hi) == Some(q)
  {
  }

  /** The tail `<middle> | Added on <date>`: its last anchor is the one before the date. */
  lemma {:induction false} TailAnchor(middle: string, date: string)
    requires |date| > 0
    requires forall i :: !OccursAt(date, AddedOn, i)
    ensures var r := InfoTail(middle, date);
            var q := |middle| + 3;
            AnchorAt(r, q) && forall q' :: q < q' < |r| ==> !AnchorAt(r, q')
  {
    var r := InfoTail(middle, date);
    var q := |middle| + 3;
    assert r[q - 1] == ' ';
    assert r[q..q + 8] == AddedOn;
    assert r[q + 8] == ' ';
    forall q' | q < q' < |r| ensures !OccursAt(r, AddedOn, q') {
      if q' <= q + 8 {
        assert r[q'] == (AddedOn + " ")[q' - q] != 'A';
        if q' + 8 <= |r| { assert r[q'..q' + 8][0] == r[q']; }
      } else {
        OccursAfter(middle + " | " + AddedOn + " ", date, AddedOn, q' - q - 9);
      }
    }
  }

  /** The start of the line: dash, space, token, space, type, space. */
  lemma {:induction false} HeadRuns(token: string, noteType: string, head: string, rest: string)
    requires |token| > 0 && NoSpace(token)
    requires |noteType| > 0 && NoSpace(noteType)
    requires head == InfoHead(token, noteType)
    ensures var s := head + rest;
            var x := 2 + |token|;
            var t := x + 1 + |noteType|;
            && |head| == t + 1
            && s[0] == '-'
            && SpaceEnd(s, 1) == 2
            && WordEnd(s, 2) == x && s[x] == ' '
            && WordEnd(s, x + 1) == t && s[t] == ' '
            && s[x + 1..t] == noteType
  {
    var s := head + rest;
    var x := 2 + |token|;
    var t := x + 1 + |noteType|;
    assert s[0] == '-' && s[1] == ' ' && s[2] == token[0];
    SpaceEndUnique(s, 1, 2);
    forall k | 2 <= k < x ensures !IsSpace(s[k]) { assert s[k] == token[k - 2]; }
    assert s[x] == ' ';
    WordEndUnique(s, 2, x);
    forall k | x + 1 <= k < t ensures !IsSpace(s[k]) { assert s[k] == noteType[k - x - 1]; }
    assert s[t] == ' ';
    WordEndUnique(s, x + 1, t);
    assert s[x + 1..t] == noteType;
  }

  /** The last anchor `j` of a suffix `rest`, seen from the whole line `s` as `q`. */
  lemma {:induction false} ShiftedLastAnchor(head: string, rest: string, j: nat, s: string, q: nat)
    requires s == head + rest && q == |head| + j
    requires 1 <= j && AnchorAt(rest, j)
    requires forall j' :: j < j' < |rest| ==> !AnchorAt(rest, j')
    ensures AnchorAt(s, q)
    ensures LastAnchor(s, |head| + 1, |s|) == Some(q)
  {
    AnchorShift(head, rest, j);
    forall q' | q < q' < |s| ensures !AnchorAt(s, q') {
      AnchorShift(head, rest, q' - |head|);
    }
    LastAnchorIs(s, |head| + 1, |s|, q);
  }

  /** After the anchor `q` of `<middle> | Added on <date>` the date group is the date. */
  lemma {:induction false} ShiftedDate(head: string, rest: string, middle: string, date: string, s: string, q: nat)
    requires s == head + rest && rest == InfoTail(middle, date) && q == |head| + |middle| + 3
    requires |date| > 0 && !IsSpace(date[0])
    requires AnchorAt(s, q)
    ensures s[|head|..q - 1] == middle + " |"
    ensures s[DateStart(s, q)..] == date
  {
    assert s[q + 8] == ' ' && s[q + 9] == date[0];
    SpaceEndUnique(s, q + 8, q + 9);
    assert s[q + 9..] == date;
    assert s[|head|..q - 1] == middle + " |";
  }

  /** `MatchFrom` from the positions of the type, the anchor and the date. */
  lemma {:induction false} MatchFromParts(s: string, x: nat, t: nat, q: nat, m: Info)
    requires x + 1 < t < |s| && s[x] == ' '
    requires WordEnd(s, x + 1) == t && s[t] == ' '
    requires LastAnchor(s, t + 2, |s|) == Some(q)
    requires Groups(s, x, t, q) == m
    ensures MatchFrom(s, x) == Some(m)
  {
  }

  /** `MatchInfo` from the positions of its parts: the first choice of `\s*` succeeds. */
  lemma {:induction false} MatchInfoFromParts(s: string, x: nat, m: Info)
    requires '\n' !in s
    requires 2 < x < |s| && s[0] == '-'
    requires SpaceEnd(s, 1) == 2 && WordEnd(s, 2) == x
    requires MatchFrom(s, x) == Some(m)
    ensures MatchInfo(s) == Some(m)
  {
  }

  /** A device's metadata line holds no newline when its parts hold none. */
  lemma {:induction false} InfoLineOfOneLine(token: string, noteType: string, middle: string, date: string)
    requires NoSpace(token) && NoSpace(noteType)
    requires '\n' !in middle && '\n' !in date
    ensures '\n' !in InfoLineOf(token, noteType, middle, date)
  {
    assert IsSpace('\n');
    assert forall i :: 0 <= i < |token| ==> token[i] != '\n';
    assert forall i :: 0 <= i < |noteType| ==> noteType[i] != '\n';
  }

  lemma {:induction false} GroupsAre(s: string, x: nat, t: nat, q: nat, noteType: string, middle: string, date: string)
    requires x + 1 < t < q - 1 && AnchorAt(s, q)
    requires s[x + 1..t] == noteType && s[t + 1..q - 1] == middle && s[DateStart(s, q)..] == date
    ensures Groups(s, x, t, q) == Info(noteType, middle, date)
  {
  }

  /**
   * On the line `- <token> <type> <middle> | Added on <date>` the type is the
   * second word after the dash, the middle group is `<middle> |` and the date
   * group is the date, when the date starts with a non-space and does not
   * itself hold `Added on`.
   */
  lemma {:induction false} MatchInfoOfCanonical(token: string, noteType: string, middle: string, date: string)
    requires |token| > 0 && NoSpace(token)
    requires |noteType| > 0 && NoSpace(noteType)
    requires '\n' !in middle && '\n' !in date
    requires |date| > 0 && !IsSpace(date[0])
    requires forall i :: !OccursAt(date, AddedOn, i)
    ensures '\n' !in InfoLineOf(token, noteType, middle, date)
    ensures MatchInfo(InfoLineOf(token, noteType, middle, date)) == Some(Info(noteType, middle + " |", date))
  {
    var s := InfoLineOf(token, noteType, middle, date);
    var x := 2 + |token|;
    var t := x + 1 + |noteType|;
    var q := t + 1 + |middle| + 3;
    InfoLineOfOneLine(token, noteType, middle, date);
    CanonicalHead(token, noteType, middle, date, s, x, t);
    CanonicalMatchFrom(token, noteType, middle, date, s, x, t, q);
    MatchInfoFromParts(s, x, Info(noteType, middle + " |", date));
  }

  /**
   * On a device's metadata line `s` the rest of the pattern matches from the
   * space after the token at `x`, with the type ending at `t` and the anchor at `q`.
   */
  lemma {:induction false} CanonicalMatchFrom(token: string, noteType: string, middle: string, date: string,
                                               s: string, x: nat, t: nat, q: nat)
    requires |token| > 0 && NoSpace(token)
    requires |noteType| > 0 && NoSpace(noteType)
    requires |date| > 0 && !IsSpace(date[0])
    requires forall i :: !OccursAt(date, AddedOn, i)
    requires s == InfoLineOf(token, noteType, middle, date)
    requires x == 2 + |token| && t == x + 1 + |noteType| && q == t + 1 + |middle| + 3
    ensures MatchFrom(s, x) == Some(Info(noteType, middle + " |", date))
  {
    CanonicalHead(token, noteType, middle, date, s, x, t);
    CanonicalTail(token, noteType, middle, date, s, t, q);
    GroupsAre(s, x, t, q, noteType, middle + " |", date);
    MatchFromParts(s, x, t, q, Info(noteType, middle + " |", date));
  }

  /** Where the dash, the token (ending at `x`) and the type (ending at `t`) sit on a device's metadata line `s`. */
  lemma {:induction false} CanonicalHead(token: string, noteType: string, middle: string, date: string,
                                          s: string, x: nat, t: nat)
    requires |token| > 0 && NoSpace(token)
    requires |noteType| > 0 && NoSpace(noteType)
    requires s == InfoLineOf(token, noteType, middle, date)
    requires x == 2 + |token| && t == x + 1 + |noteType|
    ensures t < |s| && s[0] == '-' && s[x] == ' ' && s[t] == ' '
    ensures SpaceEnd(s, 1) == 2 && WordEnd(s, 2) == x && WordEnd(s, x + 1) == t
    ensures s[x + 1..t] == noteType
  {
    HeadRuns(token, noteType, InfoHead(token, noteType), InfoTail(middle, date));
  }

  /** Where the anchor `q`, the middle group and the date sit on a device's metadata line `s` whose type ends at `t`. */
  lemma {:induction false} CanonicalTail(token: string, noteType: string, middle: string, date: string,
                                          s: string, t: nat, q: nat)
    requires |date| > 0 && !IsSpace(date[0])
    requires forall i :: !OccursAt(date, AddedOn, i)
    requires s == InfoLineOf(token, noteType, middle, date)
    requires t == 2 + |token| + 1 + |noteType| && q == t + 1 + |middle| + 3
    ensures t + 2 <= q && AnchorAt(s, q)
    ensures LastAnchor(s, t + 2, |s|) == Some(q)
    ensures s[t + 1..q - 1] == middle + " |"
    ensures s[DateStart(s, q)..] == date
  {
    var head := InfoHead(token, noteType);
    var rest := InfoTail(middle, date);
    assert s == head + rest && |head| == t + 1;
    TailAnchor(middle, date);
    ShiftedLastAnchor(head, rest, |middle| + 3, s, q);
    ShiftedDate(head, rest, middle, date, s, q);
  }

  /** A word made of ASCII letters holds no whitespace. */
  lemma {:induction false} LettersHaveNoSpace(w: string)
    requires forall i :: 0 <= i < |w| ==> 'A' <= w[i] <= 'z'
    ensures NoSpace(w)
  {
  }

  /** A date without an `A` holds no `Added on`. */
  lemma {:induction false} NoAddedOnWithoutA(date: string)
    requires 'A' !in date
    ensures forall i: nat :: !OccursAt(date, AddedOn, i)
  {
    forall i: nat ensures !OccursAt(date, AddedOn, i) {
      if i + 8 <= |date| {
        assert date[i..i + 8][0] == date[i];
        assert date[i] in date;
      }
    }
  }

  /**
   * The metadata line of a Kindle highlight at a location range,
   * `- Your Highlight on Location 120-121 | Added on Sunday, 1 January 2023 10:00:00`.
   */
  lemma {:induction false} MatchInfoExample()
    ensures var s := InfoLineOf("Your", "Highlight", "on Location 120-121", "Sunday, 1 January 2023 10:00:00");
            '\n' !in s && MatchInfo(s) == Some(Info("Highlight", "on Location 120-121" + " |", "Sunday, 1 January 2023 10:00:00"))
  {
    var date := "Sunday, 1 January 2023 10:00:00";
    assert 'A' !in date;
    NoAddedOnWithoutA(date);
    LettersHaveNoSpace("Your");
    LettersHaveNoSpace("Highlight");
    MatchInfoOfCanonical("Your", "Highlight", "on Location 120-121", date);
  }

  /** A metadata line written with a stripped, non-empty date has no whitespace at either end. */
  lemma {:induction false} InfoLineStripped(token: string, noteType: string, middle: string, date: string)
    requires date != [] && IsStripped(date)
    ensures IsStripped(InfoLineOf(token, noteType, middle, date))
  {
    var s := InfoLineOf(token, noteType, middle, date);
    assert s == InfoHead(token, noteType) + (InfoTail(middle, date)[..|InfoTail(middle, date)| - |date|] + date);
    assert s[0] == '-' && s[|s| - 1] == date[|date| - 1];
  }
}
