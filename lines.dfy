/**
 * Reading a text file line by line, as Python's `readline()` does on a file
 * opened in text mode: the file is its whole text after newline translation,
 * and a read is a position in that text.
 */
module Lines {
  import opened Text

  /** Index of the first newline at or after `pos`, or `|text|` when there is none. */
  function LineEnd(text: string, pos: nat): (e: nat)
    requires pos <= |text|
    ensures pos <= e <= |text|
    ensures forall i :: pos <= i < e ==> text[i] != '\n'
    ensures e < |text| ==> text[e] == '\n'
    decreases |text| - pos
  {
    if pos == |text| || text[pos] == '\n' then pos else LineEnd(text, pos + 1)
  }

  /** The first newline is determined by where the newlines are. */
  lemma {:induction false} LineEndUnique(text: string, pos: nat, e: nat)
    requires pos <= e <= |text|
    requires forall i :: pos <= i < e ==> text[i] != '\n'
    requires e < |text| ==> text[e] == '\n'
    ensures LineEnd(text, pos) == e
  {
  }

  /**
   * `readline()` on a file positioned at `pos`: the characters up to and
   * including the next newline (or up to the end), and the new position.
   * At the end of the file it returns the empty string and stays put.
   */
  function ReadLine(text: string, pos: nat): (r: (string, nat))
    requires pos <= |text|
    ensures pos <= r.1 <= |text|
    ensures r.0 == text[pos..r.1]
    ensures r.0 == [] <==> pos == |text|
    ensures forall i :: pos <= i < r.1 - 1 ==> text[i] != '\n'
    ensures r.1 == |text| || text[r.1 - 1] == '\n'
  {
    var e := LineEnd(text, pos);
    if e < |text| then (text[pos..e + 1], e + 1) else (text[pos..], |text|)
  }

  /** A line holds a newline at most as its last character. */
  lemma {:induction false} NewlineOnlyAtEnd(text: string, pos: nat)
    requires pos <= |text|
    ensures var line := ReadLine(text, pos).0;
            forall i :: 0 <= i < |line| - 1 ==> line[i] != '\n'
  {
    var (line, p) := ReadLine(text, pos);
    forall i | 0 <= i < |line| - 1 ensures line[i] != '\n' {
      assert line[i] == text[pos + i];
    }
  }

  /** A read line, once stripped, holds no newline at all. */
  lemma {:induction false} StrippedLineHasNoNewline(text: string, pos: nat)
    requires pos <= |text|
    ensures '\n' !in Strip(ReadLine(text, pos).0)
  {
    NewlineOnlyAtEnd(text, pos);
    StripDropsFinalNewline(ReadLine(text, pos).0);
  }

  /** Stripping a string whose only newline can be its last character leaves no newline. */
  lemma {:induction false} StripDropsFinalNewline(line: string)
    requires forall i :: 0 <= i < |line| - 1 ==> line[i] != '\n'
    ensures '\n' !in Strip(line)
  {
    var r := Strip(line);
    var a := StripIsSlice(line);
    forall i | 0 <= i < |r| ensures r[i] != '\n' {
      assert r[i] == line[a + i];
      if a + i == |line| - 1 {
        assert i == |r| - 1 && !IsSpace(r[i]);
      }
    }
  }

  /**
   * Reading from a text whose first part ends with a newline: inside the
   * first part, lines are those of the first part alone.
   */
  lemma {:induction false} ReadLineInPrefix(a: string, b: string, pos: nat)
    requires pos < |a| && a[|a| - 1] == '\n'
    ensures ReadLine(a + b, pos) == ReadLine(a, pos)
  {
    var e := LineEnd(a, pos);
    assert e < |a|;
    LineEndUnique(a + b, pos, e);
    assert (a + b)[pos..e + 1] == a[pos..e + 1];
  }

  /** Reading in the second part of a text: positions shift, lines are unchanged. */
  lemma {:induction false} ReadLineInSuffix(a: string, b: string, q: nat)
    requires q <= |b|
    ensures ReadLine(a + b, |a| + q) == (ReadLine(b, q).0, |a| + ReadLine(b, q).1)
  {
    var e := LineEnd(b, q);
    forall i | |a| + q <= i < |a| + e ensures (a + b)[i] != '\n' {
      assert (a + b)[i] == b[i - |a|];
    }
    if e < |b| { assert (a + b)[|a| + e] == b[e]; }
    LineEndUnique(a + b, |a| + q, |a| + e);
    if e < |b| {
      assert (a + b)[|a| + q..|a| + e + 1] == b[q..e + 1];
    } else {
      assert (a + b)[|a| + q..] == b[q..];
    }
  }

  /** A line without a newline, followed by one, is read back whole. */
  lemma {:induction false} ReadLineOf(text: string, pre: string, line: string, post: string)
    requires '\n' !in line && text == pre + line + "\n" + post
    ensures ReadLine(text, |pre|) == (line + "\n", |pre + line + "\n"|)
  {
    var e := |pre| + |line|;
    forall i | |pre| <= i < e ensures text[i] != '\n' {
      assert text[i] == line[i - |pre|];
    }
    assert text[e] == '\n';
    LineEndUnique(text, |pre|, e);
    assert text[|pre|..e + 1] == line + "\n";
  }
}
