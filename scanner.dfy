/**
 * The scan of the output directory for hashes already written
 * (extract-kindle-clippings.py:71 and 87-110): every line of every
 * reStructuredText file that is a comment holding a hexadecimal number
 * contributes that number.
 */
module Scanner {
  import opened Wrappers
  import opened Text
  import opened Lines
  import opened Identity
  import opened Planner

  predicate IsHexChar(c: char) {
    '0' <= c <= '9' || 'a' <= c <= 'f' || 'A' <= c <= 'F'
  }

  /** The end of the run of hexadecimal digits that starts at `i`. */
  function HexEnd(s: string, i: nat): (e: nat)
    requires i <= |s|
    ensures i <= e <= |s|
    ensures forall k :: i <= k < e ==> IsHexChar(s[k])
    ensures e < |s| ==> !IsHexChar(s[e])
    decreases |s| - i
  {
    if i < |s| && IsHexChar(s[i]) then HexEnd(s, i + 1) else i
  }

  lemma {:induction false} HexEndUnique(s: string, i: nat, e: nat)
    requires i <= e <= |s|
    requires forall k :: i <= k < e ==> IsHexChar(s[k])
    requires e < |s| ==> !IsHexChar(s[e])
    ensures HexEnd(s, i) == e
    decreases e - i
  {
    if i < e {
      HexEndUnique(s, i + 1, e);
    }
  }

  /**
   * Lines 71 and 101-103: the first capture of `^\.\.\s*([a-fA-F0-9]+)\s*`
   * in a line as `readline()` returns it. The line must start with `..`;
   * `\s*` takes the whole run of whitespace (giving any of it back cannot
   * put a digit next), and the group is the whole run of digits after it.
   */
  function HashCapture(line: string): (r: Option<string>)
    ensures r.Some? ==> |line| >= 2 && line[..2] == ".."
    ensures r.Some? ==> r.value != [] && forall i :: 0 <= i < |r.value| ==> IsHexChar(r.value[i])
  {
    if |line| >= 2 && line[..2] == ".." then
      var i := SpaceEnd(line, 2);
      var e := HexEnd(line, i);
      if i < e then Some(line[i..e]) else None
    else None
  }

  /** A line starting with `.. `, a note hash and a space yields that hash. */
  lemma {:induction false} CaptureOfComment(line: string, h: string)
    requires IsNoteHash(h)
    requires |line| >= |h| + 4 && line[..|h| + 4] == ".. " + h + " "
    ensures HashCapture(line) == Some(h)
  {
    assert line[..2] == "..";
    assert line[2] == ' ' && line[3] == h[0];
    assert line[3..3 + |h|] == h;
    assert IsSpace(' ') && !IsSpace(h[0]);
    SpaceEndUnique(line, 2, 3);
    forall k | 3 <= k < 3 + |h| ensures IsHexChar(line[k]) {
      assert line[k] == h[k - 3];
    }
    assert line[3 + |h|] == ' ';
    HexEndUnique(line, 3, 3 + |h|);
  }

  /** The lines `readline()` returns from `pos` on, until it returns the empty string. */
  function LinesFrom(text: string, pos: nat): set<string>
    requires pos <= |text|
    decreases |text| - pos
  {
    if pos == |text| then {}
    else
      var line := ReadLine(text, pos);
      {line.0} + LinesFrom(text, line.1)
  }

  /** Before the end, the scan takes one line and goes on after it. */
  lemma {:induction false} LinesFromStep(text: string, pos: nat, line: string, next: nat)
    requires pos < |text| && ReadLine(text, pos) == (line, next)
    ensures next <= |text| && LinesFrom(text, pos) == {line} + LinesFrom(text, next)
  {
  }

  /** The hashes the lines `lines` yield (lines 101-104). */
  function CapturesOf(lines: set<string>): (r: set<string>)
    ensures forall h :: h in r ==> h != []
  {
    set l | l in lines && HashCapture(l).Some? :: HashCapture(l).value
  }

  /** Each line contributes on its own. */
  lemma {:induction false} CapturesOfUnion(x: set<string>, y: set<string>)
    ensures CapturesOf(x + y) == CapturesOf(x) + CapturesOf(y)
  {
  }

  /** What one line adds to the hashes found. */
  lemma {:induction false} CapturesOfLine(line: string)
    ensures CapturesOf({line}) == if HashCapture(line).Some? then {HashCapture(line).value} else {}
  {
  }

  /** The hashes one file yields. */
  function Captures(text: string): (r: set<string>)
    ensures forall h :: h in r ==> h != []
  {
    CapturesOf(LinesFrom(text, 0))
  }

  /**
   * Lines 96-106: the scan loop over one file, reading a line at a time
   * until `readline()` returns the empty string.
   */
  method ScanFile(content: string) returns (found: set<string>)
    ensures found == Captures(content)
  {
    found := {};
    var pos := 0;
    var line := ReadLine(content, pos);
    while line.0 != []
      invariant pos <= |content| && line == ReadLine(content, pos)
      invariant Captures(content) == found + CapturesOf(LinesFrom(content, pos))
      decreases |content| - pos
    {
      LinesFromStep(content, pos, line.0, line.1);
      CapturesOfUnion({line.0}, LinesFrom(content, line.1));
      CapturesOfLine(line.0);
      var capture := HashCapture(line.0);
      if capture.Some? {
        found := found + {capture.value};
      }
      pos := line.1;
      line := ReadLine(content, pos);
    }
  }

  /** The lines of `a + b` from `|a| + q` on are the lines of `b` from `q` on. */
  lemma {:induction false} LinesFromSuffix(a: string, b: string, q: nat)
    requires q <= |b|
    ensures LinesFrom(a + b, |a| + q) == LinesFrom(b, q)
    decreases |b| - q
  {
    if q < |b| {
      var (line, next) := ReadLine(b, q);
      ReadLineInSuffix(a, b, q);
      calc {
        LinesFrom(a + b, |a| + q);
        == { LinesFromStep(a + b, |a| + q, line, |a| + next); }
        ({line} + LinesFrom(a + b, |a| + next));
        == { LinesFromSuffix(a, b, next); }
        ({line} + LinesFrom(b, next));
        == { LinesFromStep(b, q, line, next); }
        LinesFrom(b, q);
      }
    } else {
      assert |a| + q == |a + b|;
    }
  }

  /** Lines of `a` read within `a + b` are the lines of `a`, when `a` ends a line. */
  lemma {:induction false} LinesFromPrefix(a: string, b: string, pos: nat)
    requires pos <= |a| && (a == [] || a[|a| - 1] == '\n')
    ensures LinesFrom(a + b, pos) == LinesFrom(a, pos) + LinesFrom(b, 0)
    decreases |a| - pos
  {
    if pos == |a| {
      LinesFromSuffix(a, b, 0);
    } else {
      var (line, next) := ReadLine(a, pos);
      ReadLineInPrefix(a, b, pos);
      calc {
        LinesFrom(a + b, pos);
        == { LinesFromStep(a + b, pos, line, next); }
        ({line} + LinesFrom(a + b, next));
        == { LinesFromPrefix(a, b, next); }
        ({line} + (LinesFrom(a, next) + LinesFrom(b, 0)));
        == { LinesFromStep(a, pos, line, next); }
        LinesFrom(a, pos) + LinesFrom(b, 0);
      }
    }
  }

  /**
   * Appending to a file whose last line is complete keeps every hash it
   * yielded and adds those of the appended text.
   */
  lemma {:induction false} CapturesAppend(a: string, b: string)
    requires a == [] || a[|a| - 1] == '\n'
    ensures Captures(a + b) == Captures(a) + Captures(b)
  {
    LinesFromPrefix(a, b, 0);
    CapturesOfUnion(LinesFrom(a, 0), LinesFrom(b, 0));
  }

  /**
   * Text appended to a line without its newline continues that line: the
   * first line read is the old line followed by the appended text's first
   * line, and reading goes on where it would in the appended text.
   */
  lemma {:induction false} JoinedLineEnd(u: string, e: string)
    requires '\n' !in u && e != []
    ensures ReadLine(u + e, 0).1 == |u| + ReadLine(e, 0).1
  {
    var t := u + e;
    var d := LineEnd(e, 0);
    forall i | 0 <= i < |u| + d ensures t[i] != '\n' {
      if i < |u| {
        assert t[i] == u[i];
      } else {
        assert t[i] == e[i - |u|];
      }
    }
    if d < |e| { assert t[|u| + d] == e[d]; }
    LineEndUnique(t, 0, |u| + d);
  }

  /** A line not starting with `.` yields no hash. */
  lemma {:induction false} NoDotNoCapture(line: string)
    requires line != [] && line[0] != '.'
    ensures CapturesOf({line}) == {}
  {
    if |line| >= 2 { assert line[..2][0] == line[0]; }
    CapturesOfLine(line);
  }

  /** An incomplete last line not starting with `.` yields no hash. */
  lemma {:induction false} CapturesUnfinished(a: string, u: string)
    requires (a == [] || a[|a| - 1] == '\n') && u != [] && '\n' !in u && u[0] != '.'
    ensures Captures(a + u) == Captures(a)
  {
    LinesFromPrefix(a, u, 0);
    LineEndUnique(u, 0, |u|);
    assert u[0..|u|] == u;
    LinesFromStep(u, 0, u, |u|);
    assert LinesFrom(u, 0) == {u};
    NoDotNoCapture(u);
    CapturesOfUnion(LinesFrom(a, 0), {u});
  }

  /** The lines of `u + e` after the first are those of `e` after its first. */
  lemma {:induction false} LinesJoined(u: string, e: string)
    requires u != [] && '\n' !in u && u[0] != '.' && e != []
    ensures CapturesOf(LinesFrom(u + e, 0)) == CapturesOf(LinesFrom(e, ReadLine(e, 0).1))
  {
    var line := JoinedLines(u, e);
    NoDotNoCapture(line);
    CapturesOfUnion({line}, LinesFrom(e, ReadLine(e, 0).1));
  }

  /** The first line of `u + e` starts like `u`; the rest are the lines of `e` after its first. */
  lemma {:induction false} JoinedLines(u: string, e: string) returns (line: string)
    requires u != [] && '\n' !in u && e != []
    ensures line != [] && line[0] == u[0]
    ensures LinesFrom(u + e, 0) == {line} + LinesFrom(e, ReadLine(e, 0).1)
  {
    var t := u + e;
    var q := ReadLine(e, 0).1;
    JoinedLineEnd(u, e);
    line := ReadLine(t, 0).0;
    assert ReadLine(t, 0) == (line, |u| + q);
    LinesFromStep(t, 0, line, |u| + q);
    LinesFromSuffix(u, e, q);
    assert line == t[0..|u| + q];
    assert line[0] == t[0] == u[0];
  }

  /**
   * A file whose last line `u` is incomplete, with text `e` appended: the
   * line `u` yields nothing when it does not start with `.`, and the first
   * line of `e` joins it, so the scan finds only what `e` yields after its
   * first line.
   */
  lemma {:induction false} CapturesJoined(a: string, u: string, e: string)
    requires (a == [] || a[|a| - 1] == '\n') && u != [] && '\n' !in u && u[0] != '.' && e != []
    ensures Captures(a + u + e) == Captures(a + u) + CapturesOf(LinesFrom(e, ReadLine(e, 0).1))
  {
    CapturesUnfinished(a, u);
    assert a + u + e == a + (u + e);
    LinesFromPrefix(a, u + e, 0);
    CapturesOfUnion(LinesFrom(a, 0), LinesFrom(u + e, 0));
    LinesJoined(u, e);
  }

  /** A written note, scanned on its own, yields its hash (lines 249-255 against 101-104). */
  lemma {:induction false} EntryCaptured(hash: string, noteType: string, loc: string, date: string,
                      short: bool, author: string, title: string, text: string)
    requires IsNoteHash(hash)
    ensures hash in Captures(Entry(hash, noteType, loc, date, short, author, title, text))
  {
    var e := Entry(hash, noteType, loc, date, short, author, title, text);
    var (line, next) := ReadLine(e, 0);
    forall k | 0 <= k < |hash| + 4 ensures e[k] != '\n' {
      assert e[k] == (".. " + hash + " ")[k];
      if 3 <= k < 3 + |hash| {
        assert e[k] == hash[k - 3];
      }
    }
    assert |hash| + 4 < next;
    assert line[..|hash| + 4] == e[..|hash| + 4];
    CaptureOfComment(line, hash);
    LinesFromStep(e, 0, line, next);
    assert line in LinesFrom(e, 0);
  }

  /**
   * Lines 89-92: the files the scan reads: those not starting with `.` whose
   * last four characters are `.rst` or `.RST`.
   */
  predicate IsScanned(name: string) {
    var ext := if |name| >= 4 then name[|name| - 4..] else name;
    !(|name| > 0 && name[0] == '.') && (ext == ".rst" || ext == ".RST")
  }

  /** Lines 88-106 for one directory entry: its hashes when the scan reads it, none otherwise. */
  method ScanEntry(name: string, content: string) returns (found: set<string>)
    ensures found == if IsScanned(name) then Captures(content) else {}
  {
    if IsScanned(name) {
      found := ScanFile(content);
    } else {
      found := {};
    }
  }

  /** The hashes found in the files `names` of a directory given as file name to content. */
  function ScannedAmong(files: map<string, string>, names: set<string>): set<string> {
    set n, h | n in names && n in files && IsScanned(n) && h in Captures(files[n]) :: h
  }

  /** Lines 87-110: the hashes found in a directory. */
  function ScanDir(files: map<string, string>): set<string> {
    ScannedAmong(files, files.Keys)
  }

  /** A hash a scanned file yields is found in the directory. */
  lemma {:induction false} ScanDirHas(files: map<string, string>, n: string, h: string)
    requires n in files && IsScanned(n) && h in Captures(files[n])
    ensures h in ScanDir(files)
  {
  }

  /** A hash found in the directory comes from a scanned file. */
  lemma {:induction false} ScanDirSource(files: map<string, string>, h: string) returns (n: string)
    requires h in ScanDir(files)
    ensures n in files && IsScanned(n) && h in Captures(files[n])
  {
    n :| n in files && IsScanned(n) && h in Captures(files[n]);
  }

  /** Scanning every file of the directory is the directory scan. */
  lemma {:induction false} ScannedAmongAll(files: map<string, string>, names: set<string>)
    requires names == files.Keys
    ensures ScannedAmong(files, names) == ScanDir(files)
  {
  }

  /** Scanning one more file adds what that file yields, when it is scanned at all. */
  lemma {:induction false} ScannedAmongAdd(files: map<string, string>, names: set<string>, n: string)
    requires n in files
    ensures ScannedAmong(files, names + {n}) ==
      ScannedAmong(files, names) + (if IsScanned(n) then Captures(files[n]) else {})
  {
  }
}
