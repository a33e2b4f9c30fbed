# Kindle clippings extractor, modelled in Dafny

`extract-kindle-clippings.py` reads the `My Clippings.txt` log a Kindle
e-reader keeps and sorts its highlights and notes into reStructuredText
files. This project models what the script does with the log and the
output directory, and proves what it promises.

1. **Scan.** The script scans the output directory for the note hashes it
   wrote on earlier runs. These are comment lines `.. <hash> ; ...` in the
   `.rst` files.
2. **Parse.** It reads the log record by record. A record is a title line,
   a metadata line, one ignored line, the body lines and the `==========`
   separator. From these it builds:
   - title and author;
   - note type, location, page and date;
   - the trimmed body text and its hash, which is the first eight hex
     digits of the SHA-256 of the body.
3. **Group.** It groups the records by title line, in the order each
   publication is first seen.
4. **Write.** For each publication with a note not yet present, it appends
   a header and the new notes to a file. The file is the publication's own
   file, named after author and short title, when the publication has more
   than two notes, and `short_notes.rst` otherwise. File names go through
   the `getvalidfilename` character filter.

The modules follow these steps:

| module | file | what it holds |
|---|---|---|
| `Text` | `text.dfy` | Python's `str.isspace`, `strip()`, `split(sep)[0]`, `replace(c, '')`, and the greedy `\s*`/`\S*` runs |
| `Lines` | `lines.dfy` | `readline()` on a text-mode file: the file is its text, a read is a position |
| `TitleLine` | `title.dfy` | the title pattern `^(.*)\((.*)\)$` and the title/author split |
| `InfoLine` | `info.dfy` | the metadata pattern, with Python's backtracking worked out into the match it finds |
| `Location` | `location.dfy` | the location and page patterns and the location string `loc.L, p.P` |
| `Identity` | `identity.dfy` | note hashes and the choice of notes not yet present |
| `Parser` | `parser.dfy` | the record parser as functions over the log text and a read position, and the reading of one record as methods |
| `Grouping` | `grouping.dfy` | the per-publication and per-hash tables, a `Tables` class updated in place, and the parse loop as a method |
| `Planner` | `planner.dfy` | short title, file routing, the file-name filter, headers and comment lines |
| `Scanner` | `scanner.dfy` | the hash-line pattern and the directory scan, as functions and as loops |
| `Writer` | `writer.dfy` | the write loop over an `OutputDir` class, the whole script as a function, and its idempotence |

The parse and write phases exist twice:
- as methods that loop and update state in place (`Grouping.ParseClippings`
  with `Parser.ReadNote` and `Parser.ReadNoteText`, `Grouping.Tables`,
  `Writer.WriteGroup`, `Writer.OutputDir`);
- as functions (`Parser.ParseLog`, `Grouping.Collect`, `Writer.Script`).

The methods are proved equal to the functions, and the properties are then
proved about the functions. The main results:
- `Writer.ScriptIdempotent`: a second run of the script on the same log
  changes nothing. It needs two conditions: every file in the directory is
  empty or ends with a newline, and no publication file name starts with `.`.
  `Writer.HiddenGroupWrittenAgain` shows why the second condition is needed.
- `Scanner.EntryCaptured`: every comment line the script writes yields its
  hash when it is read as a line of its own. `Writer.RunCovers` carries
  this to the directory for files that end with a newline and whose names
  do not start with `.`.
- `TitleLine.SplitTitleRoundTrip` and `InfoLine.MatchInfoOfCanonical`: the
  title line and the metadata line a device writes are read back into their
  parts.
- `Location.LocStringRoundTrip`: the location string can be read back into
  location and page.
- `Parser.ParseRecordOfRendered`: a whole record written the way a device
  writes it is read back into the note it was written from.
- `Parser.ParseLogIgnoresDates`: whether a date parses changes nothing but
  the dates of the records read.
- `Identity.HashIgnoresPadding`: a hash depends on the trimmed body alone.
- `Grouping.FirstSeenOrder`, `Grouping.GroupInLogOrder` and
  `Grouping.LastWriterWins`: grouping keeps first-seen order and log order,
  and the per-hash tables keep the last record with a given hash.

Choices the model makes:
- **The log is its text plus a read position, not a list of lines.** The
  text is the file after universal-newline translation. `read(1)` skips one
  character, and `readline()` is `Lines.ReadLine`. This is closer to the
  script than a list of lines: if the first line is only a newline,
  `read(1)` eats that newline.
- **Two failures of the script are outcomes, not preconditions.**
  - A metadata line the pattern does not match ends the run: `[0]` on an
    empty list raises, and nothing is written. This is `BadInfo`.
  - A record whose body runs into the end of the file makes the body loop
    read empty lines for ever. This is `Unterminated`.
- **The `newfile` flag.** The script sets `newfile = os.path.isfile(outfile)`
  (line 217), so `newfile` is true when the file already exists, and the
  long header is written only when it does not. `Planner.Header` takes this
  as its `present` argument and follows the code.
- **The file timestamp.** After the note loop the script sets the file's
  modification time from `last_date`, under the comment "Update file
  modification time to time of last note" (line 263). The note loop
  (lines 256-259) updates `last_date` for every note of the publication
  whose date parses, including notes already present and skipped, so the
  last note is the publication's last note with a parsable date.
  `Writer.WriteNotes` returns that date.

## Model

| member | source | states |
|---|---|---|
| `Text.IsSpace` | extract-kindle-clippings.py:66 | no contract of its own: the characters `str.isspace()` and `\s` accept. `Text.LeadingSpaces`, `Text.TrailingSpaces`, `Text.StripUnique`, `Text.SpaceEnd` and `Text.SpaceEndUnique` state what rests on it |
| `Text.LeadingSpaces` | extract-kindle-clippings.py:119 | the leading run is all whitespace, and the character after it is not |
| `Text.TrailingSpaces` | extract-kindle-clippings.py:119 | the trailing run is all whitespace, and the character before it is not |
| `Text.Strip` | extract-kindle-clippings.py:159-161 | `strip()` leaves no whitespace at either end and never lengthens the text; it is empty exactly when the text is all whitespace |
| `Text.StripDecompose` | extract-kindle-clippings.py:159-161 | every text is a whitespace prefix, then what `strip()` returns, then a whitespace suffix |
| `Text.StripCut` | extract-kindle-clippings.py:159-161 | for text that is not all whitespace, `strip()` is the slice between the leading and the trailing run |
| `Text.StripIsSlice` | extract-kindle-clippings.py:161 | what `strip()` returns is a contiguous slice of its input |
| `Text.StripUnique` | extract-kindle-clippings.py:161 | whatever whitespace surrounds a stripped text, `strip()` returns exactly that text |
| `Text.StripStripped` | extract-kindle-clippings.py:159-160 | `strip()` leaves a stripped text unchanged |
| `Text.StripSpaceAfter` | extract-kindle-clippings.py:150-153 | `strip()` removes whitespace appended to a stripped text, such as the body's final newline |
| `Text.StripIdempotent` | extract-kindle-clippings.py:123 | stripping twice is stripping once (the key is stripped twice, at lines 119 and 123) |
| `Text.StripPadded` | extract-kindle-clippings.py:153 | whitespace added on either side does not change what `strip()` returns |
| `Text.StripNewline` | extract-kindle-clippings.py:147 | the newline a line read ends with does not change what `strip()` returns |
| `Text.OccursAfter` | extract-kindle-clippings.py:190-192 | an occurrence inside the second part of a concatenation is an occurrence in the whole, shifted by the first part's length, and the converse |
| `Text.Before` | extract-kindle-clippings.py:190-192 | `split(sep)[0]` is a prefix with no occurrence of `sep` starting inside it, and is either the whole text or followed by `sep` |
| `Text.BeforeOmitsSeparator` | extract-kindle-clippings.py:190 | a one-character separator never appears in `split(c)[0]` |
| `Text.Remove` | extract-kindle-clippings.py:193-195 | `replace(c, '')` keeps every other character with its multiplicity and removes every `c` |
| `Text.RemoveKeepsOut` | extract-kindle-clippings.py:193-195 | removing a character never introduces another |
| `Text.RemoveOne` | extract-kindle-clippings.py:193-195 | a single character is kept exactly when it is not the one removed |
| `Text.RemoveConcat` | extract-kindle-clippings.py:193-195 | `replace(c, '')` works piece by piece; with `Text.RemoveOne` this says it keeps the other characters in their order |
| `Text.SpaceEnd` | extract-kindle-clippings.py:66 | a greedy `\s*` from `i` takes exactly the whitespace run there |
| `Text.WordEnd` | extract-kindle-clippings.py:66 | a greedy `\S*` from `i` takes exactly the non-whitespace run there |
| `Text.SpaceEndUnique` | extract-kindle-clippings.py:66 | a whitespace run ends where its characters say |
| `Text.WordEndUnique` | extract-kindle-clippings.py:66 | a non-whitespace run ends where its characters say |
| `Text.Repeat` | extract-kindle-clippings.py:228 | `c * n` has length `n` and holds only `c` |
| `Lines.LineEnd` | extract-kindle-clippings.py:119 | the index of the first newline at or after the position, or the end of the text |
| `Lines.LineEndUnique` | extract-kindle-clippings.py:119 | the first newline is determined by where the newlines are |
| `Lines.ReadLine` | extract-kindle-clippings.py:119 | `readline()` returns the text up to and including the next newline, or the rest at the end; it returns `''` exactly at the end of the file, and then the position does not move |
| `Lines.NewlineOnlyAtEnd` | extract-kindle-clippings.py:125 | a line read holds a newline only as its last character |
| `Lines.StrippedLineHasNoNewline` | extract-kindle-clippings.py:125 | a line read and stripped holds no newline, so `.` in the patterns matches every character of it |
| `Lines.StripDropsFinalNewline` | extract-kindle-clippings.py:147 | stripping a line whose only newline is its last character removes that newline |
| `Lines.ReadLineInPrefix` | extract-kindle-clippings.py:96-106 | within the first part of a text that ends a line, lines read are those of the first part alone |
| `Lines.ReadLineInSuffix` | extract-kindle-clippings.py:96-106 | lines read in the second part of a text are that part's lines, at shifted positions |
| `Lines.ReadLineOf` | extract-kindle-clippings.py:119 | a line without a newline, followed by one, is read back whole wherever it starts, and the next read starts right after its newline |
| `TitleLine.LastIndex` | extract-kindle-clippings.py:65 | the last occurrence of a character, or none exactly when it is absent |
| `TitleLine.LastIndexIs` | extract-kindle-clippings.py:65 | an occurrence with none after it is the last one |
| `TitleLine.SplitTitle` | extract-kindle-clippings.py:129-133 | title and author are stripped. When the line ends in `)` and holds a `(`, they are the text before the last `(` and the text inside. Otherwise they are the whole line and `Unknown` |
| `TitleLine.SplitTitleAt` | extract-kindle-clippings.py:124 | the split is made at the last `(` of a line ending in `)` |
| `TitleLine.LastOpenParen` | extract-kindle-clippings.py:124 | in a line ending in `)`, the last `(` comes before that `)` with no `(` after it, so the pattern matches there |
| `TitleLine.UnknownStripped` | extract-kindle-clippings.py:133 | the author `Unknown` has no whitespace at either end |
| `TitleLine.SplitTitleRoundTrip` | extract-kindle-clippings.py:159-160 | the line `<title> (<author>)` splits back into its stripped title and author when the author holds no `(` |
| `TitleLine.TitleLineOneLine` | extract-kindle-clippings.py:119 | a title line built from parts without newlines is one line |
| `TitleLine.TitleLineShape` | extract-kindle-clippings.py:65 | in `<title> (<author>)` the last `(` follows the title and a space, and the author sits between it and the final `)` |
| `TitleLine.TitleLineStripped` | extract-kindle-clippings.py:119-123 | a title line written from a non-empty stripped title has no whitespace at either end, so `strip()` keeps it whole |
| `InfoLine.MatchInfo` | extract-kindle-clippings.py:126 | no contract of its own: the groups of `regex_info.findall(line)[0]`, or none when the pattern does not match. `InfoLine.MatchInfoShape`, `InfoLine.NoAddedOnNoMatch`, `InfoLine.MatchInfoOfCanonical` and `InfoLine.MatchInfoExample` state what it returns |
| `InfoLine.MatchFrom` | extract-kindle-clippings.py:66 | no contract of its own: the pattern after `- ` and the token. `InfoLine.MatchFromShape`, `InfoLine.GroupsAre` and `InfoLine.CanonicalMatchFrom` state what it returns |
| `InfoLine.LastAnchor` | extract-kindle-clippings.py:66 | the last `Added on` preceded by a whitespace or bar character and followed by whitespace and one more character; the greedy `(.*)` backtracks to it |
| `InfoLine.DateStart` | extract-kindle-clippings.py:66 | `\s+` after `Added on` takes its whole run but leaves at least one character for `(.+)` |
| `InfoLine.Groups` | extract-kindle-clippings.py:66 | the type group is the word after the token, and the date group is a nonempty tail of the line |
| `InfoLine.MatchFromShape` | extract-kindle-clippings.py:66 | a match gives a nonempty type without whitespace and a date that ends the line |
| `InfoLine.MatchInfoShape` | extract-kindle-clippings.py:126 | a matching metadata line starts with `-`; its type is a nonempty word, and its date is a nonempty tail of the line |
| `InfoLine.NoAddedOnNoMatch` | extract-kindle-clippings.py:126 | a metadata line without `Added on` never matches, so the run stops there |
| `InfoLine.AnchorShift` | extract-kindle-clippings.py:66 | anchors inside a suffix are found shifted by the prefix length |
| `InfoLine.LastAnchorIs` | extract-kindle-clippings.py:66 | an anchor with none after it is the last anchor |
| `InfoLine.TailAnchor` | extract-kindle-clippings.py:66 | in the tail of a device line (middle, bar, `Added on`, date) the anchor before the date is the last one when the date holds no `Added on` |
| `InfoLine.HeadRuns` | extract-kindle-clippings.py:66 | in `- <token> <type> ` the whitespace and word runs end where the separating spaces are |
| `InfoLine.ShiftedLastAnchor` | extract-kindle-clippings.py:66 | the last anchor of a suffix is the last anchor of the whole line after the prefix |
| `InfoLine.ShiftedDate` | extract-kindle-clippings.py:66 | after the anchor of a device line the date group is the date, and the middle group is the middle followed by a space and a bar |
| `InfoLine.MatchFromParts` | extract-kindle-clippings.py:66 | the match after the token follows from the positions of the type, the anchor and the date |
| `InfoLine.MatchInfoFromParts` | extract-kindle-clippings.py:66 | the first choice of `\s*` after the dash succeeds when the rest matches |
| `InfoLine.InfoLineOfOneLine` | extract-kindle-clippings.py:125 | a device's metadata line built from parts without newlines is one line |
| `InfoLine.InfoLineStripped` | extract-kindle-clippings.py:125 | a metadata line written with a non-empty stripped date has no whitespace at either end, so `strip()` keeps it whole |
| `InfoLine.GroupsAre` | extract-kindle-clippings.py:66 | the groups are the type, the middle and the date found at their positions |
| `InfoLine.CanonicalHead` | extract-kindle-clippings.py:66 | on a device's metadata line, where the dash, the token and the type sit |
| `InfoLine.CanonicalTail` | extract-kindle-clippings.py:66 | on a device's metadata line, where the anchor, the middle group and the date sit |
| `InfoLine.CanonicalMatchFrom` | extract-kindle-clippings.py:66 | on a device's metadata line the pattern after the token matches with the device's parts |
| `InfoLine.MatchInfoOfCanonical` | extract-kindle-clippings.py:126 | a device's metadata line (dash, token, type, middle, bar, `Added on`, date) matches. Its type is the second word after the dash, its middle group is the middle followed by a space and a bar, and its date is the date |
| `InfoLine.LettersHaveNoSpace` | extract-kindle-clippings.py:66 | a word of ASCII letters is a `\S+` run |
| `InfoLine.NoAddedOnWithoutA` | extract-kindle-clippings.py:66 | a date without `A` holds no `Added on` |
| `InfoLine.MatchInfoExample` | extract-kindle-clippings.py:126 | a Kindle highlight's metadata line gives type `Highlight`, the middle up to its bar, and its date |
| `Location.IsLocChar` | extract-kindle-clippings.py:67 | no contract of its own: the class `[\d\-]`. `Location.LocRunEnd`, `Location.LocRunEndUnique`, `Location.NoCommaInLocChars` and `Location.NoPInLocChars` are about it |
| `Location.LocRunEnd` | extract-kindle-clippings.py:67 | `[\d\-]+` takes the whole run of digits and dashes |
| `Location.LocRunEndUnique` | extract-kindle-clippings.py:67 | a digit-or-dash run ends where its characters say |
| `Location.FirstLocAnchor` | extract-kindle-clippings.py:127 | the leftmost place where `[Llocation.]+ ` is followed by a number |
| `Location.FirstPageAnchor` | extract-kindle-clippings.py:128 | the leftmost place where `[pP]age ` is followed by a number |
| `Location.FindLocation` | extract-kindle-clippings.py:135-138 | `note_loc` is empty exactly when nothing matches; otherwise it is the whole number after the leftmost match |
| `Location.FindPage` | extract-kindle-clippings.py:140-143 | `note_page` is empty exactly when nothing matches; otherwise it is the whole number after the leftmost match |
| `Location.LocString` | extract-kindle-clippings.py:164-170 | no contract of its own: `loc.L`, `p.P` or `loc.L, p.P`, or empty. `Location.LocStringRoundTrip` reads location and page back from it and `Location.LocStringSeparator` places the `, ` |
| `Location.IndexOfComma` | extract-kindle-clippings.py:169 | the first comma, or none exactly when there is none |
| `Location.NoCommaInLocChars` | extract-kindle-clippings.py:67-68 | a number found holds no comma |
| `Location.LocStringRoundTrip` | extract-kindle-clippings.py:164-170 | location and page are read back from the location string built from them, in each of its four forms |
| `Location.LocStringSeparator` | extract-kindle-clippings.py:168-169 | `, ` appears in the location string exactly when both a location and a page were found, right after the location |
| `Location.LocationAfterPrefix` | extract-kindle-clippings.py:127 | after a prefix with no match that ends in a class character and a space, the number that follows is the location |
| `Location.LocationLabel` | extract-kindle-clippings.py:127-128 | the label `on Location ` holds neither a location match nor a `p` |
| `Location.NoPInLocChars` | extract-kindle-clippings.py:128 | numbers hold no `p` or `P` |
| `Location.LocationOnly` | extract-kindle-clippings.py:127-143 | for a middle segment `on Location L` followed by a bar, the location is `L` and there is no page |
| `Location.NoPageWithoutP` | extract-kindle-clippings.py:128 | without a `p` or `P` no page is found |
| `Location.PageBeforeLocation` | extract-kindle-clippings.py:128 | for a middle segment with `on page P`, a bar and `Location L`, the page is `P` |
| `Location.LocationAfterPage` | extract-kindle-clippings.py:127 | for a middle segment with `on page P`, a bar and `Location L`, the location is `L`; the page number is not taken for it |
| `Identity.NoteHash` | extract-kindle-clippings.py:153 | a note hash is eight lower-case hex digits; `Identity.HashOfStoredText` and `Identity.HashIgnoresPadding` tie it to the trimmed body |
| `Identity.HashIgnoresPadding` | extract-kindle-clippings.py:153 | whitespace around the body does not change its hash |
| `Identity.HashOfStoredText` | extract-kindle-clippings.py:177 | the stored trimmed text hashes to the hash it is stored under |
| `Identity.FreshHashes` | extract-kindle-clippings.py:244 | the hashes written are among the publication's hashes, no more of them |
| `Identity.FreshHashesMembers` | extract-kindle-clippings.py:244 | a hash is written exactly when it belongs to the publication and is not already present |
| `Identity.FreshHashesOne` | extract-kindle-clippings.py:244 | one hash is written exactly when it is not present |
| `Identity.FreshHashesConcat` | extract-kindle-clippings.py:239-244 | the hashes to write are decided one by one, so they keep the publication's order |
| `Identity.FreshHashesNone` | extract-kindle-clippings.py:210-213 | nothing is written exactly when every hash of the publication is already present |
| `Identity.CountNew` | extract-kindle-clippings.py:205-208 | the count loop gives the number of hashes to write, zero exactly when all are present |
| `Parser.DateString` | extract-kindle-clippings.py:172-175 | the parsed date, or the raw date text when parsing fails; `Parser.ParseLogIgnoresDates` shows that this decides nothing but the dates |
| `Parser.ReadBody` | extract-kindle-clippings.py:145-151 | the body read ends strictly after where it starts and within the text; `Parser.ReadBodyOfRendered` gives the body text and the end just after the separator line |
| `Parser.MakeNote` | extract-kindle-clippings.py:153-180 | a record's text is stripped, and its hash is that of the text |
| `Parser.ReadRecord` | extract-kindle-clippings.py:123-153 | the lines of a record move the position forward; the key is non-empty, stripped and one line; a broken record is not a successful parse |
| `Parser.ParseRecord` | extract-kindle-clippings.py:123-180 | a record read moves forward and is well parsed; a failed record is not a successful parse |
| `Parser.ParseFrom` | extract-kindle-clippings.py:119-182 | no contract of its own: the parse loop from a title line on. `Parser.ParseFromEnd`, `Parser.ParseFromFailed` and `Parser.ParseFromRecord` give its three cases; `Parser.ParsedRecordsWellParsed` and `Parser.ParseFromIgnoresDates` state what it returns |
| `Parser.ParseLog` | extract-kindle-clippings.py:117-182 | no contract of its own: the whole log after its first character. `Parser.ParseLogEnd`, `Parser.ParseLogIgnoresDates` and `Grouping.ParseClippings` are about it |
| `Parser.PrependNothing` | extract-kindle-clippings.py:145 | nothing read so far leaves the body as the rest reads it |
| `Parser.PrependPrepend` | extract-kindle-clippings.py:150 | adding body text in two steps is adding it at once |
| `Parser.ReadBodySeparator` | extract-kindle-clippings.py:149 | the separator line ends the body |
| `Parser.ReadBodyAtEnd` | extract-kindle-clippings.py:149-151 | at the end of the file the body never ends |
| `Parser.ReadBodyLine` | extract-kindle-clippings.py:150-151 | any other line joins the body with a newline |
| `Parser.ReadBodyOfRendered` | extract-kindle-clippings.py:145-151 | body lines without newlines, none of which strips to the separator, followed by a separator line, are read back as each stripped line followed by a newline, and the body ends just after the separator line |
| `Parser.ReadBodyAtSeparator` | extract-kindle-clippings.py:149 | a separator line ends an empty body just after that line |
| `Parser.ReadBodyAfterLine` | extract-kindle-clippings.py:150-151 | a line that is not the separator is stripped and put, with a newline, before the rest of the body |
| `Parser.HeadLines` | extract-kindle-clippings.py:119-146 | the title line, the metadata line and the skipped line of a written record are read one after another |
| `Parser.ReadRecordAt` | extract-kindle-clippings.py:123-153 | a written record's title line, metadata and body are what `Parser.ReadRecord` reads |
| `Parser.ParseRecordAt` | extract-kindle-clippings.py:123-180 | a record written after any text (title line, matching metadata line, skipped line, body lines, separator line) is read as the note made of those lines, and the next record starts just after its separator line |
| `Parser.ParseRecordOfRendered` | extract-kindle-clippings.py:123-180 | a record written the way a device writes it is read back with the title, author, type, location, page and date it was written with, the stripped body and the hash of the body, and the next record starts right after it |
| `Parser.ReadNoteText` | extract-kindle-clippings.py:145-151 | the body loop reads the body the functional model reads, and reports when the file ends before a separator |
| `Parser.ReadNoteLines` | extract-kindle-clippings.py:123-153 | the reading steps of the parse loop's body give the lines `Parser.ReadRecord` reads |
| `Parser.ReadNote` | extract-kindle-clippings.py:123-180 | one pass of the parse loop's body gives the record `Parser.ParseRecord` reads |
| `Parser.ParseFromEnd` | extract-kindle-clippings.py:121 | an empty stripped title line ends the log |
| `Parser.ParseFromFailed` | extract-kindle-clippings.py:126 | a failing record decides the outcome of the whole run; no record is kept |
| `Parser.ParseFromRecord` | extract-kindle-clippings.py:119-182 | a record read comes before the records after it |
| `Parser.ParseLogEnd` | extract-kindle-clippings.py:117-121 | the records read up to an empty title line are the whole result |
| `Parser.ParsedRecordsWellParsed` | extract-kindle-clippings.py:119-182 | every record of a successful parse is well parsed: a non-empty one-line stripped key, title and author split from it, location and page as numbers with the location string built from them, and the hash of the trimmed text |
| `Parser.ParseRecordIgnoresDates` | extract-kindle-clippings.py:172-175 | with two date parsers a record is read the same way at the same position: the same kind, the same next position, and the same fields except the date |
| `Parser.MakeNoteIgnoresDates` | extract-kindle-clippings.py:172-180 | the notes made of the same lines with two date parsers differ at most in their dates |
| `Parser.ThenSameButDates` | extract-kindle-clippings.py:121-182 | records that differ only in their dates, put before outcomes that differ only in their dates, keep them alike |
| `Parser.ParseFromIgnoresDates` | extract-kindle-clippings.py:119-182 | from any position, two date parsers give outcomes of the same kind with the same number of records, equal in every field but the date |
| `Parser.ParseLogIgnoresDates` | extract-kindle-clippings.py:117-182 | two runs whose date parsers differ give outcomes of the same kind with the same number of records, equal in every field but the date |
| `Grouping.AddNote` | extract-kindle-clippings.py:155-180 | no contract of its own: the table updates for one record. `Grouping.AddNoteWellFormed`, `Grouping.AddNoteOrder`, `Grouping.AddNoteKeys`, `Grouping.AddNoteHashes`, `Grouping.AddNoteTitles` and `Grouping.Tables.Add` are about it |
| `Grouping.AddNoteWellFormed` | extract-kindle-clippings.py:155-180 | adding a record keeps the tables in agreement |
| `Grouping.AddNoteOrder` | extract-kindle-clippings.py:159 | the key order lists each publication once |
| `Grouping.AddNoteKeys` | extract-kindle-clippings.py:155-162 | the publication tables keep equal key sets and as many hashes as texts |
| `Grouping.AddNoteKeySets` | extract-kindle-clippings.py:155-160 | the publication tables keep equal key sets |
| `Grouping.AddNoteCounts` | extract-kindle-clippings.py:161-162 | each publication keeps as many hashes as texts |
| `Grouping.AddNoteHashes` | extract-kindle-clippings.py:177-180 | every hash a publication lists has an entry in each per-hash table |
| `Grouping.Collect` | extract-kindle-clippings.py:155-162 | the tables after the records; the note and hash tables have the same keys |
| `Grouping.CollectWellFormed` | extract-kindle-clippings.py:155-180 | the tables built from any records agree with each other |
| `Grouping.CollectSnoc` | extract-kindle-clippings.py:121-182 | the tables after one more record are the old tables with that record added |
| `Grouping.FirstIndex` | extract-kindle-clippings.py:186 | the index of the first record of a publication |
| `Grouping.FirstIndexSnoc` | extract-kindle-clippings.py:186 | a later record does not move a publication's first record |
| `Grouping.CollectOrderStep` | extract-kindle-clippings.py:159 | a record's key joins the order only when it is new |
| `Grouping.FirstSeenStep` | extract-kindle-clippings.py:186 | first-seen order is kept by one more record |
| `Grouping.FirstSeenOld` | extract-kindle-clippings.py:186 | a record of a known publication leaves the order as it is |
| `Grouping.FirstSeenNew` | extract-kindle-clippings.py:186 | a record of a new publication puts it last |
| `Grouping.FirstSeenOrder` | extract-kindle-clippings.py:186 | publications are visited in the order of their first records, each once |
| `Grouping.RecordsOf` | extract-kindle-clippings.py:155-162 | the records of a publication, all with its key |
| `Grouping.RecordsOfSnoc` | extract-kindle-clippings.py:155-162 | one more record joins its own publication's records and no other's |
| `Grouping.GroupInLogOrder` | extract-kindle-clippings.py:155-162 | a publication's texts and hashes are those of its records, in log order; a key without records has no entry |
| `Grouping.GroupStep` | extract-kindle-clippings.py:161-162 | one more record extends its own publication's lists and no other's |
| `Grouping.AddNoteTitles` | extract-kindle-clippings.py:159-160 | titles and authors stay those the keys split into |
| `Grouping.TitleOfGroup` | extract-kindle-clippings.py:159-160 | a publication's title and author are those its title line splits into, whichever record came last |
| `Grouping.CollectHashesShaped` | extract-kindle-clippings.py:162 | every hash a publication lists has the shape of a note hash |
| `Grouping.LastWithHash` | extract-kindle-clippings.py:177-180 | the last record with a given hash |
| `Grouping.LastWriterWins` | extract-kindle-clippings.py:177-180 | the per-hash tables hold the text, location string, type and date of the last record with that hash, and no entry when there is none |
| `Grouping.ThenNothing` | extract-kindle-clippings.py:117-121 | no records before a result leaves it as it is |
| `Grouping.ThenThen` | extract-kindle-clippings.py:121-182 | records put before a result in two steps are put before it at once |
| `Grouping.Tables.constructor` | extract-kindle-clippings.py:74-82 | the tables start empty |
| `Grouping.Tables.Add` | extract-kindle-clippings.py:155-180 | one record updates the tables in place as the functional model adds it |
| `Grouping.Tables.StartGroup` | extract-kindle-clippings.py:155-157 | a new key gets empty note and hash lists, and nothing else changes |
| `Grouping.Tables.AddToGroup` | extract-kindle-clippings.py:159-162 | title and author are set, text and hash appended, and the key joins the order when new |
| `Grouping.Tables.AddToHashTables` | extract-kindle-clippings.py:177-180 | the per-hash tables get the record's entries, and nothing else changes |
| `Grouping.ParseClippings` | extract-kindle-clippings.py:117-182 | the parse loop gives the outcome of the functional parser, and on success the tables built from its records |
| `Planner.CleanTitle` | extract-kindle-clippings.py:190-195 | the cleaned title holds no bar, `?`, `:` or `*` and is no longer than the title |
| `Planner.ShortTitle` | extract-kindle-clippings.py:196-197 | the short title holds no bar, `?`, `:` or `*` and is a prefix of the cleaned title of at most 128 characters; it is cut to 127 only when longer than 128 |
| `Planner.RemoveAbsent` | extract-kindle-clippings.py:193-195 | removing a character the text lacks changes nothing |
| `Planner.ShortTitlePlain` | extract-kindle-clippings.py:190-197 | a title without separators and removed characters, at most 128 long, is its own short title |
| `Planner.FileName` | extract-kindle-clippings.py:198-203 | the file name ends in `.rst`; with more than two notes it starts with `<author> - ` |
| `Planner.FileNameShared` | extract-kindle-clippings.py:198-203 | the shared `short_notes.rst` is chosen exactly when there are at most two notes |
| `Planner.IsFileNameChar` | extract-kindle-clippings.py:58 | no contract of its own: the class `[\w\s()'.?!:-]` the file name filter keeps. `Planner.ValidFileName`, `Planner.ValidFileNameKeeps` and `Planner.ValidFileNameExtension` are about it |
| `Planner.ValidFileName` | extract-kindle-clippings.py:55-58 | only allowed characters remain, so no `/`, and the name never grows; `Planner.ValidFileNameCounts` and `Planner.ValidFileNameDrops` state that the other characters are deleted |
| `Planner.ValidFileNameCounts` | extract-kindle-clippings.py:58 | each allowed character is kept as often as it occurs, and every other character is deleted |
| `Planner.ValidFileNameDrops` | extract-kindle-clippings.py:58 | a character outside the allowed set is deleted, not replaced |
| `Planner.ValidFileNameConcat` | extract-kindle-clippings.py:58 | the filter works character by character |
| `Planner.ValidFileNameKeeps` | extract-kindle-clippings.py:58 | a name of allowed characters passes unchanged |
| `Planner.ValidFileNameIdempotent` | extract-kindle-clippings.py:58 | filtering twice is filtering once |
| `Planner.ValidFileNameExtension` | extract-kindle-clippings.py:58 | the `.rst` extension survives the filter |
| `Planner.ShortHeading` | extract-kindle-clippings.py:223-226 | no contract of its own: `<author> - <title>`, or the title for an `Unknown` author. It is used in the body of `Planner.Header` for the short-notes file; `Planner.Section` states the shape of the section built around it |
| `Planner.LongHeading` | extract-kindle-clippings.py:231 | no contract of its own: `Highlights from <title>`. It is used in the body of `Planner.Header` for a new file of its own; `Planner.Section` states the shape of the section built around it |
| `Planner.Section` | extract-kindle-clippings.py:227-228 | a heading line, an underline exactly as long, then an empty line |
| `Planner.Header` | extract-kindle-clippings.py:221-235 | the header is empty exactly for a publication's own file that already exists; otherwise it ends a line |
| `Planner.Comment` | extract-kindle-clippings.py:249-252 | the comment line starts with `.. `, the hash and a space |
| `Planner.Entry` | extract-kindle-clippings.py:254-255 | an entry starts with its comment's `.. <hash> ` and ends a line |
| `Scanner.IsHexChar` | extract-kindle-clippings.py:71 | no contract of its own: the class `[a-fA-F0-9]`. `Scanner.HexEnd`, `Scanner.HexEndUnique`, `Scanner.HashCapture` and `Scanner.CaptureOfComment` are about it |
| `Scanner.HexEnd` | extract-kindle-clippings.py:71 | `[a-fA-F0-9]+` takes the whole run of hex digits |
| `Scanner.HexEndUnique` | extract-kindle-clippings.py:71 | a hex run ends where its characters say |
| `Scanner.HashCapture` | extract-kindle-clippings.py:101-103 | a line yields a capture only when it starts with `..`, and the capture is a nonempty run of hex digits |
| `Scanner.CaptureOfComment` | extract-kindle-clippings.py:71 | a line starting with `.. `, a note hash and a space yields exactly that hash |
| `Scanner.LinesFrom` | extract-kindle-clippings.py:96-106 | no contract of its own: the lines the read loop sees, as a set. `Scanner.LinesFromStep`, `Scanner.LinesFromSuffix`, `Scanner.LinesFromPrefix` and `Scanner.ScanFile` are about it |
| `Scanner.LinesFromStep` | extract-kindle-clippings.py:99-106 | the scan takes one line and goes on after it |
| `Scanner.CapturesOf` | extract-kindle-clippings.py:101-104 | no capture is empty |
| `Scanner.CapturesOfUnion` | extract-kindle-clippings.py:101-104 | each line contributes on its own |
| `Scanner.CapturesOfLine` | extract-kindle-clippings.py:101-104 | one line adds its capture, or nothing |
| `Scanner.Captures` | extract-kindle-clippings.py:96-106 | no hash found in a file is empty |
| `Scanner.ScanFile` | extract-kindle-clippings.py:96-106 | the read loop finds the hashes of the file's lines |
| `Scanner.LinesFromSuffix` | extract-kindle-clippings.py:96-106 | reading the second part of a text gives that part's lines |
| `Scanner.LinesFromPrefix` | extract-kindle-clippings.py:96-106 | reading a text whose first part ends a line gives the lines of both parts |
| `Scanner.CapturesAppend` | extract-kindle-clippings.py:96-106 | appending to a file whose last line is complete keeps its hashes and adds those of the appended text |
| `Scanner.JoinedLineEnd` | extract-kindle-clippings.py:99-106 | text appended to a line without its newline is read as part of that line, and reading goes on where it would in the appended text |
| `Scanner.NoDotNoCapture` | extract-kindle-clippings.py:71 | a line not starting with `.` yields no hash |
| `Scanner.CapturesUnfinished` | extract-kindle-clippings.py:96-106 | an incomplete last line not starting with `.` adds no hash |
| `Scanner.LinesJoined` | extract-kindle-clippings.py:96-106 | after a joined first line, the hashes are those of the appended text after its first line |
| `Scanner.JoinedLines` | extract-kindle-clippings.py:99-106 | the first line read from the joined text starts like the incomplete line, and the others are the appended text's lines after its first |
| `Scanner.CapturesJoined` | extract-kindle-clippings.py:96-106 | appending to a file with an incomplete last line loses the appended text's first line: the scan finds the old hashes plus those of the rest |
| `Scanner.EntryCaptured` | extract-kindle-clippings.py:249-255 | a written note, scanned on its own, yields its hash |
| `Scanner.IsScanned` | extract-kindle-clippings.py:89-92 | no contract of its own: the scan reads a file exactly when its name does not start with `.` and ends in `.rst` or `.RST`. `Scanner.ScanEntry`, `Writer.GroupFileScanned` and `Writer.VisibleScanned` are about it |
| `Scanner.ScanEntry` | extract-kindle-clippings.py:88-110 | a directory entry yields its hashes when the scan reads it, and none otherwise |
| `Scanner.ScanDir` | extract-kindle-clippings.py:87-110 | no contract of its own: the hashes of every file the scan reads. `Scanner.ScanDirHas`, `Scanner.ScanDirSource`, `Scanner.ScannedAmongAll` and `Writer.OutputDir.ExistingHashes` are about it |
| `Scanner.ScanDirHas` | extract-kindle-clippings.py:104 | a hash a scanned file yields is found in the directory |
| `Scanner.ScanDirSource` | extract-kindle-clippings.py:104 | a hash found in the directory comes from a scanned file |
| `Scanner.ScannedAmongAll` | extract-kindle-clippings.py:87-88 | scanning every file of the directory is the directory scan |
| `Scanner.ScannedAmongAdd` | extract-kindle-clippings.py:88-110 | scanning one more file adds what it yields when it is read at all |
| `Writer.CollectReady` | extract-kindle-clippings.py:239-243 | every entry the write loop looks up is in the tables the parse loop builds |
| `Writer.GroupFile` | extract-kindle-clippings.py:215 | the file name of a publication ends in `.rst` and holds no `/` |
| `Writer.GroupFileScanned` | extract-kindle-clippings.py:89-92 | a publication's file is read by the next scan exactly when its name does not start with `.` |
| `Writer.NoteEntry` | extract-kindle-clippings.py:249-255 | no contract of its own: the comment line and the text of one note. `Planner.Entry`, `Scanner.EntryCaptured` and `Writer.EntriesCaptured` are about it |
| `Writer.Entries` | extract-kindle-clippings.py:254-255 | the written notes end a line, and nothing is written for no notes |
| `Writer.EntriesCaptured` | extract-kindle-clippings.py:249-255 | the entries, scanned on their own, yield every note written |
| `Writer.NewHashes` | extract-kindle-clippings.py:244 | every hash to write has its entries in the tables |
| `Writer.GroupFiles` | extract-kindle-clippings.py:186 | one file name for each publication in the key order |
| `Writer.DatesOf` | extract-kindle-clippings.py:242 | one date per note |
| `Writer.LastParsed` | extract-kindle-clippings.py:256-259 | the last date that parses, and none exactly when none parses |
| `Writer.LastParsedStep` | extract-kindle-clippings.py:256-259 | one more date replaces the last parsed date exactly when it parses |
| `Writer.OutputDir.constructor` | extract-kindle-clippings.py:87 | the directory holds the given files |
| `Writer.OutputDir.Append` | extract-kindle-clippings.py:219 | mode `a` creates a missing file and appends to its content, and nothing else changes |
| `Writer.OutputDir.ExistingHashes` | extract-kindle-clippings.py:87-110 | the scan loop finds the directory's hashes |
| `Writer.WriteNotes` | extract-kindle-clippings.py:239-259 | the note loop appends exactly the new notes, in group order, and returns the last parsed date of all the notes |
| `Writer.NoteOutput` | extract-kindle-clippings.py:243-254 | no contract of its own: nothing for a note already present, its entry otherwise. `Writer.WriteNote` and `Writer.WrittenStep` are about it |
| `Writer.WriteNote` | extract-kindle-clippings.py:244-255 | a note is appended unless it is present already |
| `Writer.WrittenNone` | extract-kindle-clippings.py:239 | nothing is written before the loop |
| `Writer.WrittenAll` | extract-kindle-clippings.py:239-255 | after the loop exactly the new notes are written |
| `Writer.WrittenStep` | extract-kindle-clippings.py:244-255 | each hash adds its entry when new and nothing otherwise |
| `Writer.WrittenUpdate` | extract-kindle-clippings.py:244-255 | one pass of the note loop leaves the file as the entries of the first `i + 1` hashes after the start |
| `Writer.WriteGroupSpec` | extract-kindle-clippings.py:205-259 | no contract of its own: the directory after one publication is written. `Writer.WriteGroup`, `Writer.WriteGroupUnchanged`, `Writer.WriteGroupTerminated`, `Writer.WriteGroupScanGrows` and `Writer.WriteGroupCovers` are about it |
| `Writer.AppendGroup` | extract-kindle-clippings.py:215-255 | no contract of its own: the header and the new entries appended to the publication's file. `Writer.AppendGroupGrows` is about it |
| `Writer.WriteGroup` | extract-kindle-clippings.py:205-259 | writing one publication changes the directory as the functional model says: nothing when none of its hashes is new |
| `Writer.RunSpec` | extract-kindle-clippings.py:186-261 | no contract of its own: the directory after the first `n` publications are written. `Writer.WriteAll`, `Writer.RunTerminated`, `Writer.RunScanGrows`, `Writer.RunCovers` and `Writer.RunIdempotent` are about it |
| `Writer.WriteAll` | extract-kindle-clippings.py:186-261 | the publication loop writes every publication in first-seen order |
| `Writer.Run` | extract-kindle-clippings.py:84-261 | the whole script parses as the functional parser and leaves the directory the functional script leaves |
| `Writer.Content` | extract-kindle-clippings.py:219 | no contract of its own: a missing file reads as empty, which is what mode `a` appends to. `Writer.OutputDir.Append`, `Writer.AppendScanned` and `Writer.AppendGroupGrows` are about it |
| `Writer.AppendScanned` | extract-kindle-clippings.py:219 | appending keeps every hash found and, in a scanned file, makes the appended hashes found |
| `Writer.AppendGroupGrows` | extract-kindle-clippings.py:219-255 | appending a header and new entries keeps files terminated and hashes found, and a scanned file then yields every new hash |
| `Writer.WriteGroupTerminated` | extract-kindle-clippings.py:205-259 | writing a publication keeps every file empty or ending with a newline |
| `Writer.WriteGroupScanGrows` | extract-kindle-clippings.py:205-259 | writing a publication loses no hash the scan finds |
| `Writer.WriteGroupCovers` | extract-kindle-clippings.py:205-259 | after a publication is written to a scanned file, each of its hashes was present or is found |
| `Writer.AppendEntriesGrows` | extract-kindle-clippings.py:254-255 | appending complete lines keeps files terminated and makes their hashes found |
| `Writer.TerminatedUpdate` | extract-kindle-clippings.py:219 | replacing a file by one ending a line keeps the directory terminated |
| `Writer.VisibleScanned` | extract-kindle-clippings.py:89-92 | when no publication file starts with `.`, every publication file is scanned |
| `Writer.CoveredLast` | extract-kindle-clippings.py:186 | coverage of one more publication includes coverage of the earlier ones and of the last |
| `Writer.RunTerminated` | extract-kindle-clippings.py:186-261 | the write phase keeps every file empty or ending with a newline |
| `Writer.RunScanGrows` | extract-kindle-clippings.py:186-261 | the write phase loses no hash the scan finds |
| `Writer.ScanTrace` | extract-kindle-clippings.py:186-261 | what the scan finds after each publication is written only grows |
| `Writer.RunScanStep` | extract-kindle-clippings.py:186-261 | one publication written loses no hash the scan finds |
| `Writer.RunCovers` | extract-kindle-clippings.py:186-261 | after the write phase, every hash of every publication was present or is found by the scan |
| `Writer.RunCoverStep` | extract-kindle-clippings.py:205-259 | the hashes of the publication just written were present or are found |
| `Writer.RunUnchanged` | extract-kindle-clippings.py:210-213 | publications none of whose hashes is new leave the directory as it is |
| `Writer.WriteGroupUnchanged` | extract-kindle-clippings.py:210-213 | a publication all of whose hashes are present writes nothing |
| `Writer.RunLibrary` | extract-kindle-clippings.py:87-261 | no contract of its own: the scan, then every publication written with that scan. `Writer.RunIdempotent` and `Writer.Script` are about it |
| `Writer.RunIdempotent` | extract-kindle-clippings.py:186-261 | writing the same tables a second time over the first result changes nothing |
| `Writer.CoveredAll` | extract-kindle-clippings.py:207 | hashes present before the first run are found by the second scan too |
| `Writer.Script` | extract-kindle-clippings.py:84-261 | no contract of its own: the directory after the whole script. `Writer.Run` and `Writer.ScriptIdempotent` are about it |
| `Writer.ScriptIdempotent` | extract-kindle-clippings.py:84-261 | running the script twice on the same log leaves the directory as the first run left it |
| `Writer.HiddenGroupWrittenAgain` | extract-kindle-clippings.py:89-90 | a publication file whose name starts with `.` is never scanned, so a second run appends its notes again |
| `Writer.HiddenFileWrittenAgain` | extract-kindle-clippings.py:89-92 | the same for any file the scan skips |
| `Writer.UnscannedUpdate` | extract-kindle-clippings.py:89-92 | writing a file the scan skips changes nothing the scan finds |
| `Writer.UnterminatedScan` | extract-kindle-clippings.py:215-235 | for the existing own file of a publication with more than two notes, whose last line is incomplete: no header is written, and the next scan finds the old hashes plus only what the entries yield after their first line |
| `Writer.AppendWithoutHeader` | extract-kindle-clippings.py:215-235 | the existing own file of a publication with more than two notes gets its new entries and no header |
| `Writer.UnterminatedFileWrittenAgain` | extract-kindle-clippings.py:215-255 | in that case the first new hash is not found by the next scan, unless the rest of the entries repeat it, and a second run appends to the file again |
| `Writer.ScanReplace` | extract-kindle-clippings.py:87-106 | rewriting a scanned file so that it yields some more hashes adds exactly those to the scan |

## Left out

- Command-line arguments, the default path found with `getpass`, and
  `os.makedirs` (lines 35-53): configuration and filesystem glue. The log
  is a parameter (its text), and so is the output directory (a map from
  file name to content).
- Every `print` (lines 86-113, 211, 245, 247): logging only.
- `os.walk` into subdirectories (line 87): the directory is flat. Only
  files directly in it are scanned, and the script writes only there.
- The scan counters `lines` and `hashes` (lines 97-108): they only feed a
  `print`.
- `existing_hashes` maps each hash to the file it was found in (line 104).
  The file name is only printed (line 245), so the model keeps a set of
  hashes.
- Lines are treated as a set by the scan functions. The order and
  repetition of lines do not change which hashes are found.
- SHA-256 (line 153) is a parameter: any function whose results are 64
  lower-case hex digits.
- `dateutil.parser.parse` (lines 172-175, 256-259) is a parameter that
  returns a date string or nothing.
- `datetime.now()`, the epoch arithmetic, time zones and `os.utime`
  (lines 237, 263-270) are left out. These are clock, floating-point and
  filesystem effects. `Writer.WriteGroup` returns the last parsed date
  instead of setting the file time.
- `unicodedata.normalize('NFKD', ...)` (line 57) is not modelled; only the
  character filter is. `\w` and `\d` are read as ASCII, while Python's
  `str` patterns also accept other Unicode letters and digits.
- An output path not ending in `/` (line 215) is not modelled. The file
  name is used as the key in the output directory.
- A note hash that occurs twice in one run: the write loop writes it once
  for each occurrence. The model follows the loop and does not deduplicate
  within a run.
- The script's endless loop when the file ends inside a body
  (lines 149-151) becomes the outcome `Unterminated`, on which nothing is
  written.
- Identity.FreshHashes: its own contract states only that every hash
  written is one of the publication's hashes, and that there are no more of
  them. Membership in both directions is `Identity.FreshHashesMembers`, and
  the order is given by `Identity.FreshHashesConcat` and
  `Identity.FreshHashesOne`.
- Writer.RunIdempotent: proved only for directories whose files are empty
  or end with a newline, and for publication files not starting with `.`.
  `Writer.HiddenGroupWrittenAgain` shows that the second condition cannot
  be dropped. Where a header is written it ends with a newline, so the
  comments after it start lines of their own. No header is written, by
  `Planner.Header`, only to the existing own file of a publication with
  more than two notes; there the first comment appended joins an
  incomplete last line, and `Writer.UnterminatedFileWrittenAgain` shows
  that the publication is written again, when that line does not start
  with `.` and the rest of the entries do not repeat the hash.
- Writer.ScriptIdempotent: proved under the same two conditions as
  `Writer.RunIdempotent`.
