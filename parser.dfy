/**
 * The clippings log parser (extract-kindle-clippings.py:117-182), as
 * functions over the text of the log and a read position.
 *
 * A record is a title line, a metadata line, one ignored line, the body
 * lines and the separator `==========`; every line is read with
 * `readline()` and stripped. Parsing stops at the first title line that is
 * empty once stripped (the end of the file reads as an empty line).
 *
 * Two inputs make the script fail instead of returning records: a metadata
 * line the metadata pattern does not match (the `[0]` on an empty match
 * list raises, and nothing is written), and a record whose body runs into
 * the end of the file (the body loop then reads empty lines forever). Both
 * are outcomes here rather than preconditions.
 */
module Parser {
  import opened Wrappers
  import opened Text
  import opened Lines
  import opened TitleLine
  import opened InfoLine
  import opened Location
  import opened Identity

  /** The line that ends a record. */
  const NoteSep := "=========="

  /**
   * The services the parser calls outside the model: SHA-256, and
   * `str(dateutil.parser.parse(d))`, which is `None` where `parse` raises.
   */
  datatype Env = Env(digest: Digest, parseDate: string -> Option<string>)

  /** One parsed record. */
  datatype Note = Note(
    key: string,       // the stripped title line: the publication it belongs to
    title: string,
    author: string,
    noteType: string,
    location: string,  // the location number range, or empty
    page: string,      // the page number range, or empty
    locStr: string,
    date: string,
    text: string,      // the trimmed body
    hash: string)

  datatype ParseResult =
    | Parsed(notes: seq<Note>)
    | BadInfo(line: string)   // a metadata line the pattern does not match
    | Unterminated            // the end of the file came before a separator

  /** Lines 172-175: the parsed date, or the raw date text when parsing fails. */
  function DateString(env: Env, date: string): (r: string)
    ensures env.parseDate(date).None? ==> r == date
    ensures env.parseDate(date).Some? ==> r == env.parseDate(date).value
  {
    match env.parseDate(date)
    case Some(d) => d
    case None => date
  }

  /**
   * Lines 147-151: the body lines from `pos` up to the separator line, each
   * stripped and followed by a newline, and the position after the
   * separator; `None` when the end of the file comes first.
   */
  function ReadBody(text: string, pos: nat): (r: Option<(string, nat)>)
    requires pos <= |text|
    ensures r.Some? ==> pos < r.value.1 <= |text|
    decreases |text| - pos
  {
    var (line, p) := ReadLine(text, pos);
    var l := Strip(line);
    if l == NoteSep then Some(([], p))
    else if p == pos then None
    else
      match ReadBody(text, p)
      case None => None
      case Some((acc, q)) => Some((l + "\n" + acc, q))
  }

  /** Lines 123-180 for one record: title line `key`, metadata `m` and body text `acc`. */
  function MakeNote(env: Env, key: string, m: Info, acc: string): (n: Note)
    requires '\n' !in key
    ensures n.hash == NoteHash(env.digest, n.text)
    ensures IsStripped(n.text) && IsNoteHash(n.hash)
  {
    var (title, author) := SplitTitle(key);
    var loc := FindLocation(m.middle);
    var page := FindPage(m.middle);
    HashOfStoredText(env.digest, acc);
    Note(key, title, author, m.noteType, loc, page, LocString(loc, page),
      DateString(env, m.date), Strip(acc), NoteHash(env.digest, acc))
  }

  /** The records parsed so far, put before the outcome of the rest. */
  function Then(done: seq<Note>, rest: ParseResult): ParseResult {
    match rest
    case Parsed(ns) => Parsed(done + ns)
    case _ => rest
  }

  /** What reading the lines of one record gives, before a note is made of them. */
  datatype RecordLines =
    | Blank                             // the title line is empty once stripped
    | Broken(outcome: ParseResult)      // the run fails at this record
    | Whole(key: string, info: Info, body: string, next: nat)

  /**
   * Lines 123-153: the lines of the record whose title line starts at `pos`:
   * its stripped title line, its matched metadata and its body text.
   */
  function ReadRecord(text: string, pos: nat): (r: RecordLines)
    requires pos <= |text|
    ensures r.Whole? ==> pos < r.next <= |text|
    ensures r.Whole? ==> r.key != [] && IsStripped(r.key) && '\n' !in r.key
    ensures r.Broken? ==> !r.outcome.Parsed?
  {
    var (l1, p1) := ReadLine(text, pos);
    var key := Strip(l1);
    if key == [] then Blank
    else
      var (l2, p2) := ReadLine(text, p1);
      var info := Strip(l2);
      StrippedLineHasNoNewline(text, pos);
      StrippedLineHasNoNewline(text, p1);
      match MatchInfo(info)
      case None => Broken(BadInfo(info))
      case Some(m) =>
        match ReadBody(text, ReadLine(text, p2).1)
        case None => Broken(Unterminated)
        case Some((acc, q)) => Whole(key, m, acc, q)
  }

  /** What reading one record gives. */
  datatype RecordRead =
    | NoMore                       // the title line is empty once stripped
    | Failed(outcome: ParseResult) // the run fails at this record
    | Record(note: Note, next: nat)

  /** Lines 123-180: the record whose title line starts at `pos`. */
  function ParseRecord(env: Env, text: string, pos: nat): (r: RecordRead)
    requires pos <= |text|
    ensures r.Record? ==> pos < r.next <= |text|
    ensures r.Failed? ==> !r.outcome.Parsed?
    ensures r.Record? ==> WellParsed(env, r.note)
  {
    match ReadRecord(text, pos)
    case Blank => NoMore
    case Broken(outcome) => Failed(outcome)
    case Whole(key, m, acc, q) => Record(MakeNote(env, key, m, acc), q)
  }

  /** Lines 119-182 from a position where a title line is about to be read. */
  function ParseFrom(env: Env, text: string, pos: nat): ParseResult
    requires pos <= |text|
    decreases |text| - pos
  {
    match ParseRecord(env, text, pos)
    case NoMore => Parsed([])
    case Failed(outcome) => outcome
    case Record(n, next) => Then([n], ParseFrom(env, text, next))
  }

  /** Lines 117-182: the whole log, after the one leading character (the byte order mark) is skipped. */
  function ParseLog(env: Env, text: string): ParseResult {
    ParseFrom(env, text, if |text| == 0 then 0 else 1)
  }

  /** Body text read so far, put before what the rest of the body reads. */
  ghost function Prepend(acc: string, rest: Option<(string, nat)>): Option<(string, nat)> {
    match rest
    case None => None
    case Some((a, q)) => Some((acc + a, q))
  }

  lemma {:induction false} PrependNothing(rest: Option<(string, nat)>)
    ensures Prepend([], rest) == rest
  {
    if rest.Some? {
      assert [] + rest.value.0 == rest.value.0;
    }
  }

  lemma {:induction false} PrependPrepend(a: string, b: string, rest: Option<(string, nat)>)
    ensures Prepend(a, Prepend(b, rest)) == Prepend(a + b, rest)
  {
    if rest.Some? {
      assert a + (b + rest.value.0) == (a + b) + rest.value.0;
    }
  }

  /** The separator line ends the body. */
  lemma {:induction false} ReadBodySeparator(text: string, pos: nat)
    requires pos <= |text| && Strip(ReadLine(text, pos).0) == NoteSep
    ensures ReadBody(text, pos) == Some(([], ReadLine(text, pos).1))
  {
  }

  /** At the end of the file the body is never terminated. */
  lemma {:induction false} ReadBodyAtEnd(text: string, pos: nat)
    requires pos <= |text| && Strip(ReadLine(text, pos).0) != NoteSep
    requires ReadLine(text, pos).1 == pos
    ensures ReadBody(text, pos) == None
  {
  }

  /** Any other line is part of the body, followed by a newline. */
  lemma {:induction false} ReadBodyLine(text: string, pos: nat)
    requires pos <= |text| && Strip(ReadLine(text, pos).0) != NoteSep
    requires ReadLine(text, pos).1 != pos
    ensures ReadBody(text, pos) ==
      Prepend(Strip(ReadLine(text, pos).0) + "\n", ReadBody(text, ReadLine(text, pos).1))
  {
  }

  /** Body lines as they stand in the log, each followed by a newline. */
  function BodyLines(lines: seq<string>): string
    decreases |lines|
  {
    if lines == [] then [] else lines[0] + "\n" + BodyLines(lines[1..])
  }

  /** The body text the parser makes of them: each line stripped and followed by a newline. */
  function BodyText(lines: seq<string>): string
    decreases |lines|
  {
    if lines == [] then [] else Strip(lines[0]) + "\n" + BodyText(lines[1..])
  }

  /** A body line: one line that is not the separator once stripped. */
  predicate IsBodyLine(line: string) {
    '\n' !in line && Strip(line) != NoteSep
  }

  /**
   * Lines 145-151: body lines written after `pre`, none of them the
   * separator once stripped, then a separator line, are read back as their
   * stripped text, and reading ends just after that separator line.
   */
  lemma {:induction false} ReadBodyOfRendered(text: string, pre: string, lines: seq<string>, sep: string, rest: string)
    requires forall i :: 0 <= i < |lines| ==> IsBodyLine(lines[i])
    requires '\n' !in sep && Strip(sep) == NoteSep
    requires text == pre + BodyLines(lines) + sep + "\n" + rest
    ensures ReadBody(text, |pre|) == Some((BodyText(lines), |pre + BodyLines(lines) + sep + "\n"|))
    decreases |lines|
  {
    if lines == [] {
      RenderedEnd(text, pre, lines, sep, rest);
      ReadBodyAtSeparator(text, pre, sep);
    } else {
      var pre' := pre + lines[0] + "\n";
      RenderedStep(text, pre, lines, sep, rest);
      ReadBodyOfRendered(text, pre', lines[1..], sep, rest);
      ReadBodyAfterLine(text, pre, lines[0]);
    }
  }

  /** With no body lines left, the separator line comes first. */
  lemma {:induction false} RenderedEnd(text: string, pre: string, lines: seq<string>, sep: string, rest: string)
    requires lines == [] && '\n' !in sep
    requires text == pre + BodyLines(lines) + sep + "\n" + rest
    ensures BodyText(lines) == [] && pre + BodyLines(lines) + sep + "\n" == pre + sep + "\n"
    ensures |pre + sep + "\n"| <= |text|
    ensures ReadLine(text, |pre|) == (sep + "\n", |pre + sep + "\n"|)
  {
    assert text == pre + sep + "\n" + rest;
    ReadLineOf(text, pre, sep, rest);
  }

  /** With body lines left, the next one is read first and the rest follow it. */
  lemma {:induction false} RenderedStep(text: string, pre: string, lines: seq<string>, sep: string, rest: string)
    requires lines != [] && forall i :: 0 <= i < |lines| ==> IsBodyLine(lines[i])
    requires text == pre + BodyLines(lines) + sep + "\n" + rest
    ensures text == pre + lines[0] + "\n" + BodyLines(lines[1..]) + sep + "\n" + rest
    ensures pre + BodyLines(lines) + sep + "\n" == pre + lines[0] + "\n" + BodyLines(lines[1..]) + sep + "\n"
    ensures forall i :: 0 <= i < |lines[1..]| ==> IsBodyLine(lines[1..][i])
    ensures |pre + lines[0] + "\n"| <= |text|
    ensures ReadLine(text, |pre|) == (lines[0] + "\n", |pre + lines[0] + "\n"|)
    ensures Strip(lines[0]) != NoteSep
    ensures BodyText(lines) == Strip(lines[0]) + "\n" + BodyText(lines[1..])
  {
    RegroupStep(text, pre, lines, sep, rest);
    ReadLineOf(text, pre, lines[0], BodyLines(lines[1..]) + sep + "\n" + rest);
    BodyLinesTail(lines);
    assert IsBodyLine(lines[0]);
  }

  lemma {:induction false} RegroupStep(text: string, pre: string, lines: seq<string>, sep: string, rest: string)
    requires lines != [] && text == pre + BodyLines(lines) + sep + "\n" + rest
    ensures text == pre + lines[0] + "\n" + BodyLines(lines[1..]) + sep + "\n" + rest
    ensures text == pre + lines[0] + "\n" + (BodyLines(lines[1..]) + sep + "\n" + rest)
    ensures pre + BodyLines(lines) + sep + "\n" == pre + lines[0] + "\n" + BodyLines(lines[1..]) + sep + "\n"
  {
    Regroup6(pre, lines[0], BodyLines(lines[1..]), sep, rest);
  }

  /** Every line after a body line's successor is still a body line. */
  lemma {:induction false} BodyLinesTail(lines: seq<string>)
    requires lines != [] && forall i :: 0 <= i < |lines| ==> IsBodyLine(lines[i])
    ensures forall i :: 0 <= i < |lines[1..]| ==> IsBodyLine(lines[1..][i])
  {
    forall i | 0 <= i < |lines[1..]| ensures IsBodyLine(lines[1..][i]) {
      assert lines[1..][i] == lines[i + 1];
    }
  }

  /** A separator line right after `pre` ends the body at once. */
  lemma {:induction false} ReadBodyAtSeparator(text: string, pre: string, sep: string)
    requires |pre + sep + "\n"| <= |text| && Strip(sep) == NoteSep
    requires ReadLine(text, |pre|) == (sep + "\n", |pre + sep + "\n"|)
    ensures ReadBody(text, |pre|) == Some(([], |pre + sep + "\n"|))
  {
    StripNewline(sep);
  }

  /** A body line right after `pre` puts its stripped text before the rest of the body. */
  lemma {:induction false} ReadBodyAfterLine(text: string, pre: string, line: string)
    requires |pre + line + "\n"| <= |text| && Strip(line) != NoteSep
    requires ReadLine(text, |pre|) == (line + "\n", |pre + line + "\n"|)
    requires ReadBody(text, |pre + line + "\n"|).Some?
    ensures var (more, q) := ReadBody(text, |pre + line + "\n"|).value;
            ReadBody(text, |pre|) == Some((Strip(line) + "\n" + more, q))
  {
    StripNewline(line);
  }

  /**
   * Lines 123-153: a record written after `pre` as its title line, its
   * metadata line, the line after it and then its body is read as that
   * title line, the metadata matched in it and the body `ReadBody` reads.
   */
  lemma {:induction false} ReadRecordAt(text: string, pre: string, key: string, info: string, skipped: string, post: string)
    requires key != [] && IsStripped(key) && '\n' !in key
    requires IsStripped(info) && '\n' !in info && MatchInfo(info).Some?
    requires '\n' !in skipped
    requires text == pre + key + "\n" + info + "\n" + skipped + "\n" + post
    requires ReadBody(text, |pre + key + "\n" + info + "\n" + skipped + "\n"|).Some?
    ensures var (acc, q) := ReadBody(text, |pre + key + "\n" + info + "\n" + skipped + "\n"|).value;
            ReadRecord(text, |pre|) == Whole(key, MatchInfo(info).value, acc, q)
  {
    HeadLines(text, pre, key, info, skipped, post);
    StripNewline(key);
    StripStripped(key);
    StripNewline(info);
    StripStripped(info);
  }

  /**
   * Lines 123-180 on a record written after `pre`: title line `key`,
   * metadata line `info`, one more line, body lines and a separator line.
   * The record read back is the note made of that title line, the metadata
   * matched in `info` and the stripped body lines, and the next record
   * starts just after the separator line.
   */
  lemma {:induction false} ParseRecordAt(env: Env, text: string, pre: string, key: string, info: string, skipped: string,
      lines: seq<string>, sep: string, rest: string)
    requires key != [] && IsStripped(key) && '\n' !in key
    requires IsStripped(info) && '\n' !in info && MatchInfo(info).Some?
    requires '\n' !in skipped
    requires forall i :: 0 <= i < |lines| ==> IsBodyLine(lines[i])
    requires '\n' !in sep && Strip(sep) == NoteSep
    requires text == pre + key + "\n" + info + "\n" + skipped + "\n" + BodyLines(lines) + sep + "\n" + rest
    ensures ParseRecord(env, text, |pre|) == Record(MakeNote(env, key, MatchInfo(info).value, BodyText(lines)),
      |pre + key + "\n" + info + "\n" + skipped + "\n" + BodyLines(lines) + sep + "\n"|)
  {
    var head := pre + key + "\n" + info + "\n" + skipped + "\n";
    ReadBodyOfRendered(text, head, lines, sep, rest);
    Regroup4(head, BodyLines(lines), sep, rest);
    ReadRecordAt(text, pre, key, info, skipped, BodyLines(lines) + sep + "\n" + rest);
  }

  /**
   * Lines 123-180 on a record written the way the device writes it: title
   * line, metadata line, one more line, body lines and the separator line.
   * The note read back carries the title, author, type, location and date it
   * was written with, the stripped body and the digest of the body as read,
   * and the next record starts right after this one.
   */
  lemma {:induction false} ParseRecordOfRendered(env: Env, text: string, pre: string, record: string, rest: string,
      title: string, author: string, token: string, noteType: string, middle: string, date: string,
      skipped: string, lines: seq<string>, sep: string)
    requires title != [] && IsStripped(title) && IsStripped(author)
    requires '(' !in author && '\n' !in title && '\n' !in author
    requires |token| > 0 && NoSpace(token) && |noteType| > 0 && NoSpace(noteType)
    requires '\n' !in middle && '\n' !in date && date != [] && IsStripped(date)
    requires forall i :: !OccursAt(date, AddedOn, i)
    requires '\n' !in skipped
    requires forall i :: 0 <= i < |lines| ==> IsBodyLine(lines[i])
    requires '\n' !in sep && Strip(sep) == NoteSep
    requires record == TitleLineOf(title, author) + "\n" + InfoLineOf(token, noteType, middle, date) + "\n"
      + skipped + "\n" + BodyLines(lines) + sep + "\n"
    requires text == pre + record + rest
    ensures ParseRecord(env, text, |pre|) == Record(
      Note(TitleLineOf(title, author), title, author, noteType,
        FindLocation(middle + " |"), FindPage(middle + " |"), LocString(FindLocation(middle + " |"), FindPage(middle + " |")),
        DateString(env, date), Strip(BodyText(lines)), NoteHash(env.digest, BodyText(lines))),
      |pre + record|)
  {
    var key, info := TitleLineOf(title, author), InfoLineOf(token, noteType, middle, date);
    SplitTitleRoundTrip(title, author);
    TitleLineStripped(title, author);
    MatchInfoOfCanonical(token, noteType, middle, date);
    InfoLineStripped(token, noteType, middle, date);
    RegroupRecord(pre, key, info, skipped, BodyLines(lines), sep, rest);
    ParseRecordAt(env, text, pre, key, info, skipped, lines, sep, rest);
  }

  /** The two ways a written record and what surrounds it are grouped. */
  lemma {:induction false} RegroupRecord(pre: string, key: string, info: string, skipped: string, body: string, sep: string, rest: string)
    ensures pre + (key + "\n" + info + "\n" + skipped + "\n" + body + sep + "\n") + rest
      == pre + key + "\n" + info + "\n" + skipped + "\n" + body + sep + "\n" + rest
    ensures pre + (key + "\n" + info + "\n" + skipped + "\n" + body + sep + "\n")
      == pre + key + "\n" + info + "\n" + skipped + "\n" + body + sep + "\n"
  {
  }

  lemma {:induction false} Regroup4(x: string, a: string, b: string, rest: string)
    ensures x + a + b + "\n" + rest == x + (a + b + "\n" + rest)
    ensures |x + a + b + "\n"| == |x + a + b + "\n" + rest| - |rest|
  {
  }

  /** The three lines before the body of a written record. */
  lemma {:induction false} HeadLines(text: string, pre: string, key: string, info: string, skipped: string, post: string)
    requires '\n' !in key && '\n' !in info && '\n' !in skipped
    requires text == pre + key + "\n" + info + "\n" + skipped + "\n" + post
    ensures ReadLine(text, |pre|) == (key + "\n", |pre + key + "\n"|)
    ensures ReadLine(text, |pre + key + "\n"|) == (info + "\n", |pre + key + "\n" + info + "\n"|)
    ensures ReadLine(text, |pre + key + "\n" + info + "\n"|) == (skipped + "\n", |pre + key + "\n" + info + "\n" + skipped + "\n"|)
  {
    Regroup5(pre + key + "\n", info, skipped, post);
    ReadLineOf(text, pre, key, info + "\n" + skipped + "\n" + post);
    Regroup3(pre + key + "\n" + info + "\n", skipped, post);
    ReadLineOf(text, pre + key + "\n", info, skipped + "\n" + post);
    ReadLineOf(text, pre + key + "\n" + info + "\n", skipped, post);
  }

  lemma {:induction false} Regroup5(x: string, a: string, b: string, post: string)
    ensures x + a + "\n" + b + "\n" + post == x + (a + "\n" + b + "\n" + post)
  {
  }

  lemma {:induction false} Regroup3(x: string, b: string, post: string)
    ensures x + b + "\n" + post == x + (b + "\n" + post)
  {
  }

  /** The two ways a text with one more body line is grouped. */
  lemma {:induction false} Regroup6(pre: string, line: string, more: string, sep: string, rest: string)
    ensures pre + (line + "\n" + more) + sep + "\n" + rest == pre + line + "\n" + (more + sep + "\n" + rest)
    ensures pre + (line + "\n" + more) + sep + "\n" + rest == pre + line + "\n" + more + sep + "\n" + rest
  {
  }


  /**
   * Lines 145-151: the body loop, reading stripped lines up to the separator
   * and adding each to the note text with a newline. When the end of the
   * file comes first (`terminated` is false) the script would read empty
   * lines for ever; here the loop stops.
   */
  method ReadNoteText(text: string, bodyStart: nat) returns (noteText: string, pos: nat, terminated: bool)
    requires bodyStart <= |text|
    ensures terminated <==> ReadBody(text, bodyStart).Some?
    ensures terminated ==> ReadBody(text, bodyStart) == Some((noteText, pos))
  {
    var lineStart := bodyStart;
    var read := ReadLine(text, lineStart);
    var line := Strip(read.0);
    pos := read.1;
    noteText := "";
    PrependNothing(ReadBody(text, bodyStart));
    while line != NoteSep
      invariant bodyStart <= lineStart <= |text| && read == ReadLine(text, lineStart)
      invariant line == Strip(read.0) && pos == read.1
      invariant ReadBody(text, bodyStart) == Prepend(noteText, ReadBody(text, lineStart))
      decreases |text| - lineStart
    {
      if pos == lineStart {
        ReadBodyAtEnd(text, lineStart);
        return noteText, pos, false;
      }
      ReadBodyLine(text, lineStart);
      PrependPrepend(noteText, line + "\n", ReadBody(text, pos));
      noteText := noteText + (line + "\n");
      lineStart := pos;
      read := ReadLine(text, lineStart);
      line := Strip(read.0);
      pos := read.1;
    }
    ReadBodySeparator(text, lineStart);
    assert noteText + [] == noteText;
    terminated := true;
  }

  /**
   * Lines 123-180 as the script runs them for one record: its lines are
   * read one after another and the note is made of them. The outcome is
   * the record the functional model reads at `start`.
   */
  method ReadNote(env: Env, text: string, start: nat) returns (r: RecordRead)
    requires start <= |text|
    ensures r == ParseRecord(env, text, start)
  {
    var lines := ReadNoteLines(text, start);
    r := match lines
      case Blank => NoMore
      case Broken(outcome) => Failed(outcome)
      case Whole(key, m, acc, q) => Record(MakeNote(env, key, m, acc), q);
  }

  /** Lines 123-153 as the script runs them: the lines of one record, as `ReadRecord` reads them. */
  method ReadNoteLines(text: string, start: nat) returns (r: RecordLines)
    requires start <= |text|
    ensures r == ReadRecord(text, start)
  {
    var key := Strip(ReadLine(text, start).0);
    if key == [] {
      return Blank;
    }
    StrippedLineHasNoNewline(text, start);
    var infoStart := ReadLine(text, start).1;
    var read := ReadLine(text, infoStart);
    var line := Strip(read.0);
    StrippedLineHasNoNewline(text, infoStart);
    var info := MatchInfo(line);
    if info.None? {
      return Broken(BadInfo(line));
    }
    var bodyStart := ReadLine(text, read.1).1;  // the line after the metadata is skipped
    var noteText, pos, terminated := ReadNoteText(text, bodyStart);
    if !terminated {
      return Broken(Unterminated);
    }
    r := Whole(key, info.value, noteText, pos);
  }

  /** An empty title line ends the log. */
  lemma {:induction false} ParseFromEnd(env: Env, text: string, pos: nat)
    requires pos <= |text| && Strip(ReadLine(text, pos).0) == []
    ensures ParseFrom(env, text, pos) == Parsed([])
  {
  }

  /** A record that fails decides the outcome of the whole run. */
  lemma {:induction false} ParseFromFailed(env: Env, text: string, pos: nat, outcome: ParseResult)
    requires pos <= |text| && ParseRecord(env, text, pos) == Failed(outcome)
    ensures ParseFrom(env, text, pos) == outcome
  {
  }

  /** A record read comes before the records after it. */
  lemma {:induction false} ParseFromRecord(env: Env, text: string, pos: nat, n: Note, next: nat)
    requires pos <= |text| && ParseRecord(env, text, pos) == Record(n, next)
    ensures next <= |text| && ParseFrom(env, text, pos) == Then([n], ParseFrom(env, text, next))
  {
  }

  /** Records read up to an empty title line are the whole outcome. */
  lemma {:induction false} ParseLogEnd(env: Env, text: string, pos: nat, done: seq<Note>)
    requires pos <= |text| && ParseRecord(env, text, pos) == NoMore
    requires ParseLog(env, text) == Then(done, ParseFrom(env, text, pos))
    ensures ParseLog(env, text) == Parsed(done)
  {
    assert ParseFrom(env, text, pos) == Parsed([]);
    assert done + [] == done;
  }

  /**
   * What every parsed record satisfies: a non-empty stripped one-line key,
   * title and author split from it, location and page as digit runs with
   * the location string built from them, and the hash of the trimmed text.
   */
  ghost predicate WellParsed(env: Env, n: Note) {
    && n.key != [] && IsStripped(n.key) && '\n' !in n.key
    && (n.title, n.author) == SplitTitle(n.key)
    && AllLocChars(n.location) && AllLocChars(n.page) && n.locStr == LocString(n.location, n.page)
    && IsStripped(n.text) && n.hash == NoteHash(env.digest, n.text) && IsNoteHash(n.hash)
  }

  /** Lines 119-182: every record of a successful parse is well parsed. */
  lemma {:induction false} ParsedRecordsWellParsed(env: Env, text: string, pos: nat)
    requires pos <= |text|
    ensures var r := ParseFrom(env, text, pos);
      r.Parsed? ==> forall i :: 0 <= i < |r.notes| ==> WellParsed(env, r.notes[i])
    decreases |text| - pos
  {
    var rec := ParseRecord(env, text, pos);
    if rec.Record? {
      ParseFromRecord(env, text, pos, rec.note, rec.next);
      ParsedRecordsWellParsed(env, text, rec.next);
    } else if rec.Failed? {
      ParseFromFailed(env, text, pos, rec.outcome);
    }
  }

  /** Two records that differ at most in their date. */
  predicate SameButDate(a: Note, b: Note) {
    a.(date := b.date) == b
  }

  /** Two outcomes of the same kind whose records differ at most in their dates. */
  predicate SameButDates(r1: ParseResult, r2: ParseResult) {
    if r1.Parsed? then
      && r2.Parsed? && |r1.notes| == |r2.notes|
      && forall i :: 0 <= i < |r1.notes| ==> SameButDate(r1.notes[i], r2.notes[i])
    else r1 == r2
  }

  /**
   * Lines 172-175: the date parser decides nothing but the date of a
   * record; a record stops, fails or is read the same way whatever it says.
   */
  lemma {:induction false} ParseRecordIgnoresDates(e1: Env, e2: Env, text: string, pos: nat)
    requires pos <= |text| && e1.digest == e2.digest
    ensures var r1, r2 := ParseRecord(e1, text, pos), ParseRecord(e2, text, pos);
      && (r1.Record? <==> r2.Record?)
      && (!r1.Record? ==> r1 == r2)
      && (r1.Record? ==> r1.next == r2.next && SameButDate(r1.note, r2.note))
  {
    match ReadRecord(text, pos)
    case Blank =>
    case Broken(outcome) =>
    case Whole(key, m, acc, q) =>
      MakeNoteIgnoresDates(e1, e2, key, m, acc);
      assert ParseRecord(e1, text, pos) == Record(MakeNote(e1, key, m, acc), q);
      assert ParseRecord(e2, text, pos) == Record(MakeNote(e2, key, m, acc), q);
  }

  /** Lines 123-180: the date parser decides the date of a record and nothing else. */
  lemma {:induction false} MakeNoteIgnoresDates(e1: Env, e2: Env, key: string, m: Info, acc: string)
    requires '\n' !in key && e1.digest == e2.digest
    ensures SameButDate(MakeNote(e1, key, m, acc), MakeNote(e2, key, m, acc))
  {
  }

  /** Putting records that differ only in their dates before such outcomes keeps them alike. */
  lemma {:induction false} ThenSameButDates(n1: Note, n2: Note, rest1: ParseResult, rest2: ParseResult)
    requires SameButDate(n1, n2) && SameButDates(rest1, rest2)
    ensures SameButDates(Then([n1], rest1), Then([n2], rest2))
  {
    if rest1.Parsed? {
      var ns1, ns2 := [n1] + rest1.notes, [n2] + rest2.notes;
      forall i | 0 <= i < |ns1|
        ensures SameButDate(ns1[i], ns2[i])
      {
        if i > 0 {
          assert ns1[i] == rest1.notes[i - 1] && ns2[i] == rest2.notes[i - 1];
        }
      }
    }
  }

  /** Two runs whose date parsers differ read the same records from `pos` on, up to their dates. */
  lemma {:induction false} ParseFromIgnoresDates(e1: Env, e2: Env, text: string, pos: nat)
    requires pos <= |text| && e1.digest == e2.digest
    ensures SameButDates(ParseFrom(e1, text, pos), ParseFrom(e2, text, pos))
    decreases |text| - pos
  {
    var r1, r2 := ParseRecord(e1, text, pos), ParseRecord(e2, text, pos);
    ParseRecordIgnoresDates(e1, e2, text, pos);
    if r1.Record? {
      ParseFromRecord(e1, text, pos, r1.note, r1.next);
      ParseFromRecord(e2, text, pos, r2.note, r2.next);
      ParseFromIgnoresDates(e1, e2, text, r1.next);
      ThenSameButDates(r1.note, r2.note, ParseFrom(e1, text, r1.next), ParseFrom(e2, text, r2.next));
    } else if r1.Failed? {
      ParseFromFailed(e1, text, pos, r1.outcome);
      ParseFromFailed(e2, text, pos, r2.outcome);
    }
  }

  /**
   * Lines 172-175: a date that parses or fails to parse changes nothing but
   * the date shown; the outcome, the number of records and every key, title,
   * author, location, text and hash are the same.
   */
  lemma {:induction false} ParseLogIgnoresDates(e1: Env, e2: Env, text: string)
    requires e1.digest == e2.digest
    ensures SameButDates(ParseLog(e1, text), ParseLog(e2, text))
  {
    ParseFromIgnoresDates(e1, e2, text, if |text| == 0 then 0 else 1);
  }
}
