/** The optional-value wrapper used throughout the model. */
module Wrappers {
  datatype Option<+T> = None | Some(value: T)
}

/**
 * String helpers with the meaning Python gives them: whitespace as
 * `str.isspace()` and the regular-expression class `\s` see it,
 * `str.strip()`, `str.split(sep)[0]` and `str.replace(c, '')`.
 */
module Text {

  /**
   * The characters Python counts as whitespace (`str.isspace()`, and `\s` on
   * `str` patterns): tab to carriage return, the four separators U+1C to U+1F,
   * space, U+85, no-break space, U+1680, U+2000 to U+200A, the line and
   * paragraph separators, U+202F, U+205F and U+3000.
   */
  predicate IsSpace(c: char) {
    || '\t' <= c <= '\r'
    || '\U{1C}' <= c <= ' '
    || c == '\U{85}' || c == '\U{A0}' || c == '\U{1680}'
    || '\U{2000}' <= c <= '\U{200A}'
    || c == '\U{2028}' || c == '\U{2029}' || c == '\U{202F}' || c == '\U{205F}' || c == '\U{3000}'
  }

  predicate AllSpace(s: string) {
    forall i :: 0 <= i < |s| ==> IsSpace(s[i])
  }

  predicate NoSpace(s: string) {
    forall i :: 0 <= i < |s| ==> !IsSpace(s[i])
  }

  /** Neither end of `s` is whitespace: the shape `strip()` leaves behind. */
  predicate IsStripped(s: string) {
    s == [] || (!IsSpace(s[0]) && !IsSpace(s[|s| - 1]))
  }

  /** The length of the whitespace run at the start of `s`. */
  function LeadingSpaces(s: string): (n: nat)
    ensures n <= |s|
    ensures forall i :: 0 <= i < n ==> IsSpace(s[i])
    ensures n < |s| ==> !IsSpace(s[n])
  {
    if s == [] || !IsSpace(s[0]) then 0 else 1 + LeadingSpaces(s[1..])
  }

  /** The length of the whitespace run at the end of `s`. */
  function TrailingSpaces(s: string): (n: nat)
    ensures n <= |s|
    ensures forall i :: |s| - n <= i < |s| ==> IsSpace(s[i])
    ensures n < |s| ==> !IsSpace(s[|s| - 1 - n])
  {
    if s == [] || !IsSpace(s[|s| - 1]) then 0 else 1 + TrailingSpaces(s[..|s| - 1])
  }

  lemma {:induction false} LeadingSpacesUnique(s: string, n: nat)
    requires n <= |s|
    requires forall i :: 0 <= i < n ==> IsSpace(s[i])
    requires n < |s| ==> !IsSpace(s[n])
    ensures LeadingSpaces(s) == n
  {
  }

  lemma {:induction false} TrailingSpacesUnique(s: string, n: nat)
    requires n <= |s|
    requires forall i :: |s| - n <= i < |s| ==> IsSpace(s[i])
    requires n < |s| ==> !IsSpace(s[|s| - 1 - n])
    ensures TrailingSpaces(s) == n
  {
  }

  /** `s.strip()`. */
  function Strip(s: string): (r: string)
    ensures IsStripped(r)
    ensures |r| <= |s|
    ensures r == [] <==> AllSpace(s)
  {
    var a := LeadingSpaces(s);
    if a == |s| then [] else s[a..|s| - TrailingSpaces(s)]
  }

  /** `Strip(s)` is `s` with a whitespace prefix and a whitespace suffix taken off. */
  lemma {:induction false} StripDecompose(s: string) returns (a: nat)
    ensures a + |Strip(s)| <= |s|
    ensures s == s[..a] + Strip(s) + s[a + |Strip(s)|..]
    ensures AllSpace(s[..a]) && AllSpace(s[a + |Strip(s)|..])
  {
    var lead := LeadingSpaces(s);
    if lead == |s| {
      a := 0;
      assert Strip(s) == [];
      AllSpaceSlice(s, 0, |s|);
      assert s[..0] == [] && s[0..] == s[0..|s|] == s;
    } else {
      a := lead;
      StripCut(s, a, |s| - TrailingSpaces(s));
    }
  }

  /** When `s` is not all whitespace, `Strip(s)` is what lies between its leading and trailing runs. */
  lemma {:induction false} StripCut(s: string, a: nat, b: nat)
    requires a == LeadingSpaces(s) < |s| && b == |s| - TrailingSpaces(s)
    ensures a + |Strip(s)| == b <= |s| && Strip(s) == s[a..b]
    ensures s == s[..a] + Strip(s) + s[b..]
    ensures AllSpace(s[..a]) && AllSpace(s[b..])
  {
    StripBetween(s, a, b);
    SplitThree(s, a, b);
    LeadingRun(s, a);
    TrailingRun(s, b);
  }

  /** Cutting a string at two positions and joining the pieces gives it back. */
  lemma {:induction false} SplitThree(s: string, a: nat, b: nat)
    requires a <= b <= |s|
    ensures s == s[..a] + s[a..b] + s[b..]
  {
    assert s == s[..a] + s[a..b] + s[b..];
  }

  /** The character after the leading run is not whitespace, so the trailing run ends before it. */
  lemma {:induction false} StripBetween(s: string, a: nat, b: nat)
    requires a == LeadingSpaces(s) < |s| && b == |s| - TrailingSpaces(s)
    ensures a < b <= |s| && Strip(s) == s[a..b]
  {
    assert !IsSpace(s[a]);
  }

  /** The leading run is all whitespace. */
  lemma {:induction false} LeadingRun(s: string, a: nat)
    requires a == LeadingSpaces(s)
    ensures AllSpace(s[..a])
  {
    forall k | 0 <= k < a ensures IsSpace(s[..a][k]) { assert s[..a][k] == s[k]; }
  }

  /** The trailing run is all whitespace. */
  lemma {:induction false} TrailingRun(s: string, b: nat)
    requires b == |s| - TrailingSpaces(s)
    ensures AllSpace(s[b..])
  {
    forall k | 0 <= k < |s| - b ensures IsSpace(s[b..][k]) { assert s[b..][k] == s[b + k]; }
  }

  /** A run of whitespace characters, cut out of `s`. */
  lemma {:induction false} AllSpaceSlice(s: string, i: nat, j: nat)
    requires i <= j <= |s| && forall k :: i <= k < j ==> IsSpace(s[k])
    ensures AllSpace(s[i..j])
  {
    forall k | 0 <= k < j - i ensures IsSpace(s[i..j][k]) { assert s[i..j][k] == s[i + k]; }
  }

  /** `Strip(s)` is a slice of `s`. */
  lemma {:induction false} StripIsSlice(s: string) returns (a: nat)
    ensures a + |Strip(s)| <= |s| && Strip(s) == s[a..a + |Strip(s)|]
  {
    if AllSpace(s) {
      a := 0;
    } else {
      a := LeadingSpaces(s);
      assert |Strip(s)| == |s| - TrailingSpaces(s) - a;
    }
  }

  /** Whatever whitespace surrounds a stripped string, `strip()` gives that string back. */
  lemma {:induction false} StripUnique(p: string, r: string, q: string)
    requires AllSpace(p) && AllSpace(q) && IsStripped(r)
    ensures Strip(p + r + q) == r
  {
    var s := p + r + q;
    if r == [] {
      assert s == p + q;
      assert forall i :: 0 <= i < |s| ==> IsSpace(s[i]) by {
        forall i | 0 <= i < |s| ensures IsSpace(s[i]) {
          if i < |p| { assert s[i] == p[i]; } else { assert s[i] == q[i - |p|]; }
        }
      }
    } else {
      assert forall i :: 0 <= i < |p| ==> s[i] == p[i];
      assert s[|p|] == r[0];
      LeadingSpacesUnique(s, |p|);
      var n := LeadingSpaces(s);
      assert n == |p|;
      assert forall i :: |s| - |q| <= i < |s| ==> s[i] == q[i - (|s| - |q|)];
      assert s[|s| - 1 - |q|] == r[|r| - 1];
      TrailingSpacesUnique(s, |q|);
      var m := TrailingSpaces(s);
      assert m == |q|;
      assert s[n..|s| - m] == r;
    }
  }

  /** A stripped string is left alone by `strip()`. */
  lemma {:induction false} StripStripped(s: string)
    requires IsStripped(s)
    ensures Strip(s) == s
  {
    StripUnique([], s, []);
    assert [] + s + [] == s;
  }

  /** `strip()` takes off whitespace added after a stripped string. */
  lemma {:induction false} StripSpaceAfter(s: string, q: string)
    requires IsStripped(s) && AllSpace(q)
    ensures Strip(s + q) == s
  {
    StripUnique([], s, q);
    assert [] + s + q == s + q;
  }

  /** The newline `readline()` keeps is taken off by `strip()`. */
  lemma {:induction false} StripNewline(s: string)
    ensures Strip(s + "\n") == Strip(s)
  {
    assert AllSpace("\n") && AllSpace([]);
    StripPadded([], s, "\n");
    assert [] + s + "\n" == s + "\n";
  }

  /** `strip()` is idempotent. */
  lemma {:induction false} StripIdempotent(s: string)
    ensures Strip(Strip(s)) == Strip(s)
  {
    StripUnique([], Strip(s), []);
    assert [] + Strip(s) + [] == Strip(s);
  }

  /** Whitespace added around a string does not change what `strip()` returns. */
  lemma {:induction false} StripPadded(p: string, s: string, q: string)
    requires AllSpace(p) && AllSpace(q)
    ensures Strip(p + s + q) == Strip(s)
  {
    var a := StripDecompose(s);
    var r := Strip(s);
    StripAround(p, s[..a], r, s[a + |r|..], q, p + s + q);
  }

  /** A stripped string inside four runs of whitespace is what `strip()` returns. */
  lemma {:induction false} StripAround(p: string, s1: string, r: string, s2: string, q: string, t: string)
    requires AllSpace(p) && AllSpace(s1) && IsStripped(r) && AllSpace(s2) && AllSpace(q)
    requires t == p + (s1 + r + s2) + q
    ensures Strip(t) == r
  {
    Regroup(p, s1, r, s2, q);
    AllSpaceConcat(p, s1);
    AllSpaceConcat(s2, q);
    StripUnique(p + s1, r, s2 + q);
  }

  lemma {:induction false} Regroup(p: string, a: string, r: string, b: string, q: string)
    ensures p + (a + r + b) + q == (p + a) + r + (b + q)
  {
  }

  lemma {:induction false} AllSpaceConcat(a: string, b: string)
    requires AllSpace(a) && AllSpace(b)
    ensures AllSpace(a + b)
  {
    forall i | 0 <= i < |a + b| ensures IsSpace((a + b)[i]) {
      if i < |a| { assert (a + b)[i] == a[i]; } else { assert (a + b)[i] == b[i - |a|]; }
    }
  }

  /** `pat` occurs in `s` starting at index `i`. */
  predicate OccursAt(s: string, pat: string, i: nat) {
    i + |pat| <= |s| && s[i..i + |pat|] == pat
  }

  /** An occurrence inside the second part of a concatenation, seen from the whole. */
  lemma {:induction false} OccursAfter(p: string, d: string, pat: string, i: nat)
    ensures OccursAt(p + d, pat, |p| + i) <==> OccursAt(d, pat, i)
  {
    if i + |pat| <= |d| {
      assert (p + d)[|p| + i..|p| + i + |pat|] == d[i..i + |pat|];
    }
  }

  /** `s.split(sep)[0]`: the text before the first occurrence of `sep`, or all of `s`. */
  function Before(s: string, sep: string): (r: string)
    requires sep != []
    ensures r <= s
    ensures forall i :: 0 <= i < |r| ==> !OccursAt(s, sep, i)
    ensures r == s || OccursAt(s, sep, |r|)
    decreases |s|
  {
    if |s| < |sep| then s
    else if s[..|sep|] == sep then []
    else
      var rest := Before(s[1..], sep);
      assert s == [s[0]] + s[1..];
      forall i | 1 <= i <= |rest| + 1 ensures OccursAt(s, sep, i) <==> OccursAt(s[1..], sep, i - 1) {
        OccursAfter([s[0]], s[1..], sep, i - 1);
      }
      [s[0]] + rest
  }

  /** A one-character separator never survives in what `Before` returns. */
  lemma {:induction false} BeforeOmitsSeparator(s: string, c: char)
    ensures c !in Before(s, [c])
  {
    var r := Before(s, [c]);
    forall i | 0 <= i < |r| ensures r[i] != c {
      assert !OccursAt(s, [c], i);
      assert s[i..i + 1] == [s[i]];
    }
  }

  /** `s.replace(c, '')`. */
  function Remove(s: string, c: char): (r: string)
    ensures multiset(r) == multiset(s)[c := 0]
    ensures c !in r
  {
    if s == [] then []
    else
      var rest := Remove(s[1..], c);
      assert s == [s[0]] + s[1..];
      if s[0] == c then rest else [s[0]] + rest
  }

  /** `Remove` keeps a single character exactly when it is not `c`. */
  lemma {:induction false} RemoveOne(x: char, c: char)
    ensures Remove([x], c) == if x == c then [] else [x]
  {
    assert [x][1..] == [];
  }

  /** `Remove` works piece by piece, so it keeps the order of what it keeps. */
  lemma {:induction false} RemoveConcat(a: string, b: string, c: char)
    ensures Remove(a + b, c) == Remove(a, c) + Remove(b, c)
    decreases |a|
  {
    if a != [] {
      assert (a + b)[0] == a[0];
      assert (a + b)[1..] == a[1..] + b;
      RemoveConcat(a[1..], b, c);
    } else {
      assert a + b == b;
    }
  }

  /** `Remove` takes characters out and never adds one. */
  lemma {:induction false} RemoveKeepsOut(s: string, c: char, d: char)
    requires d !in s
    ensures d !in Remove(s, c)
  {
    var r := Remove(s, c);
    assert multiset(s)[d] == 0;
    assert multiset(r)[d] == 0;
  }

  /** The end of the whitespace run that starts at `i` (`\s*` taken greedily). */
  function SpaceEnd(s: string, i: nat): (e: nat)
    requires i <= |s|
    ensures i <= e <= |s|
    ensures forall k :: i <= k < e ==> IsSpace(s[k])
    ensures e < |s| ==> !IsSpace(s[e])
    decreases |s| - i
  {
    if i == |s| || !IsSpace(s[i]) then i else SpaceEnd(s, i + 1)
  }

  /** The end of the non-whitespace run that starts at `i` (`\S*` taken greedily). */
  function WordEnd(s: string, i: nat): (e: nat)
    requires i <= |s|
    ensures i <= e <= |s|
    ensures forall k :: i <= k < e ==> !IsSpace(s[k])
    ensures e < |s| ==> IsSpace(s[e])
    decreases |s| - i
  {
    if i == |s| || IsSpace(s[i]) then i else WordEnd(s, i + 1)
  }

  /** A whitespace run ends where its characters say it does. */
  lemma {:induction false} SpaceEndUnique(s: string, i: nat, e: nat)
    requires i <= e <= |s|
    requires forall k :: i <= k < e ==> IsSpace(s[k])
    requires e < |s| ==> !IsSpace(s[e])
    ensures SpaceEnd(s, i) == e
  {
  }

  /** A non-whitespace run ends where its characters say it does. */
  lemma {:induction false} WordEndUnique(s: string, i: nat, e: nat)
    requires i <= e <= |s|
    requires forall k :: i <= k < e ==> !IsSpace(s[k])
    requires e < |s| ==> IsSpace(s[e])
    ensures WordEnd(s, i) == e
  {
  }

  /** Python's `c * n` for a single character `c`. */
  function Repeat(c: char, n: nat): (r: string)
    ensures |r| == n
    ensures forall i :: 0 <= i < n ==> r[i] == c
  {
    seq(n, _ => c)
  }
}
