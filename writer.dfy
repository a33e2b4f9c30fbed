/**
 * The write phase (extract-kindle-clippings.py:186-261): publications are
 * visited in first-seen order; one whose hashes are all present already is
 * skipped, otherwise a header and the notes not yet present are appended to
 * its file. The output directory is a map from file name to content.
 */
module Writer {
  import opened Wrappers
  import opened Identity
  import opened Parser
  import opened Grouping
  import opened Planner
  import opened Scanner
  import opened Lines

  /** A note hash with an entry in every per-hash table. */
  predicate NoteReady(lib: Library, h: string) {
    IsNoteHash(h) && h in lib.notes && h in lib.locations && h in lib.types && h in lib.dates
  }

  /** Everything the write loop looks up for publication `k` is in the tables. */
  predicate GroupReady(lib: Library, k: string) {
    && k in lib.pubTitle && k in lib.pubAuthor && k in lib.pubNotes && k in lib.pubHashes
    && forall h :: h in lib.pubHashes[k] ==> NoteReady(lib, h)
  }

  predicate Ready(lib: Library) {
    forall i :: 0 <= i < |lib.order| ==> GroupReady(lib, lib.order[i])
  }

  /** The tables the parse loop builds have every entry the write loop looks up. */
  lemma {:induction false} CollectReady(ns: seq<Note>)
    requires forall i :: 0 <= i < |ns| ==> IsNoteHash(ns[i].hash)
    ensures Ready(Collect(ns))
  {
    CollectWellFormed(ns);
    CollectHashesShaped(ns);
    var lib := Collect(ns);
    forall i | 0 <= i < |lib.order| ensures GroupReady(lib, lib.order[i]) {
      assert lib.order[i] in lib.order;
    }
  }

  /** Lines 198-203 and 215: the file the notes of publication `k` go to. */
  function GroupFile(lib: Library, k: string): (name: string)
    requires GroupReady(lib, k)
    ensures |name| >= 4 && name[|name| - 4..] == ".rst" && '/' !in name
  {
    var fname := FileName(lib.pubAuthor[k], lib.pubTitle[k], |lib.pubNotes[k]|);
    ValidFileNameExtension(fname);
    ValidFileName(fname)
  }

  /** The file is read by the next scan exactly when its name does not start with `.`. */
  lemma {:induction false} GroupFileScanned(lib: Library, k: string)
    requires GroupReady(lib, k)
    ensures IsScanned(GroupFile(lib, k)) <==> GroupFile(lib, k)[0] != '.'
  {
  }

  /** Lines 240-255: note `h` as written for publication `k`. */
  function NoteEntry(lib: Library, k: string, h: string): string
    requires GroupReady(lib, k) && NoteReady(lib, h)
  {
    Entry(h, lib.types[h], lib.locations[h], lib.dates[h],
      |lib.pubNotes[k]| <= 2, lib.pubAuthor[k], lib.pubTitle[k], lib.notes[h])
  }

  /** The notes `hs` as written, in order. */
  function Entries(lib: Library, k: string, hs: seq<string>): (r: string)
    requires GroupReady(lib, k) && forall h :: h in hs ==> NoteReady(lib, h)
    ensures hs != [] ==> r != [] && r[|r| - 1] == '\n'
    ensures hs == [] ==> r == []
  {
    if hs == [] then []
    else
      var init, h := hs[..|hs| - 1], hs[|hs| - 1];
      assert forall x :: x in init ==> x in hs;
      Entries(lib, k, init) + NoteEntry(lib, k, h)
  }

  /** The entries, scanned on their own, yield every note written (lines 249-255 against 101-104). */
  lemma {:induction false} EntriesCaptured(lib: Library, k: string, hs: seq<string>)
    requires GroupReady(lib, k) && forall h :: h in hs ==> NoteReady(lib, h)
    ensures forall h :: h in hs ==> h in Captures(Entries(lib, k, hs))
  {
    if hs != [] {
      var init, h := hs[..|hs| - 1], hs[|hs| - 1];
      assert hs == init + [h];
      EntriesCaptured(lib, k, init);
      var a := Entries(lib, k, init);
      var e := NoteEntry(lib, k, h);
      CapturesAppend(a, e);
      EntryCaptured(h, lib.types[h], lib.locations[h], lib.dates[h],
        |lib.pubNotes[k]| <= 2, lib.pubAuthor[k], lib.pubTitle[k], lib.notes[h]);
    }
  }

  /** Lines 205-213: the hashes of publication `k` that are new to the run. */
  function NewHashes(lib: Library, k: string, existing: set<string>): (r: seq<string>)
    requires GroupReady(lib, k)
    ensures forall h :: h in r ==> NoteReady(lib, h)
  {
    FreshHashes(lib.pubHashes[k], existing)
  }

  /**
   * Lines 186-261 for publication `k`: the directory after its notes are
   * written. Nothing changes when none of its hashes is new; otherwise its
   * file gets the header (which depends on whether the file is present) and
   * then the notes whose hash is new, in the publication's order.
   */
  function WriteGroupSpec(files: map<string, string>, lib: Library, k: string, name: string, existing: set<string>): map<string, string>
    requires GroupReady(lib, k)
  {
    if NewHashes(lib, k, existing) == [] then files else AppendGroup(files, lib, k, name, existing)
  }

  /** The content of file `name`, empty when it is missing. */
  function Content(files: map<string, string>, name: string): string {
    if name in files then files[name] else []
  }

  /** The header of publication `k` and its new notes appended to its file `name`. */
  function AppendGroup(files: map<string, string>, lib: Library, k: string, name: string, existing: set<string>): map<string, string>
    requires GroupReady(lib, k)
  {
    files[name := Content(files, name)
      + Header(|lib.pubNotes[k]| <= 2, name in files, lib.pubAuthor[k], lib.pubTitle[k])
      + Entries(lib, k, NewHashes(lib, k, existing))]
  }

  /** The file of every publication, in first-seen order. */
  function GroupFiles(lib: Library): (names: seq<string>)
    requires Ready(lib)
    ensures |names| == |lib.order|
  {
    seq(|lib.order|, i requires 0 <= i < |lib.order| => GroupFile(lib, lib.order[i]))
  }

  /**
   * Lines 186-261 for the first `n` publications in first-seen order, the
   * publication at index `i` going to the file `names[i]`.
   */
  function RunSpec(files: map<string, string>, lib: Library, names: seq<string>, existing: set<string>, n: nat): map<string, string>
    requires Ready(lib) && |names| == |lib.order| && n <= |lib.order|
  {
    if n == 0 then files
    else WriteGroupSpec(RunSpec(files, lib, names, existing, n - 1), lib, lib.order[n - 1], names[n - 1], existing)
  }

  /**
   * One run of the script on the log `log` and the directory `files`: scan,
   * parse, then write; a failed parse writes nothing.
   */
  function Script(env: Env, log: string, files: map<string, string>): map<string, string> {
    match ParseLog(env, log)
    case Parsed(ns) =>
      ParsedRecordsWellParsed(env, log, if |log| == 0 then 0 else 1);
      CollectReady(ns);
      RunLibrary(files, Collect(ns))
    case _ => files
  }

  /** Scanning `files`, then writing every publication of `lib` to its own file. */
  function RunLibrary(files: map<string, string>, lib: Library): map<string, string>
    requires Ready(lib)
  {
    RunSpec(files, lib, GroupFiles(lib), ScanDir(files), |lib.order|)
  }

  /** The dates of the notes `hs`, in order. */
  function DatesOf(lib: Library, hs: seq<string>): (ds: seq<string>)
    requires forall h :: h in hs ==> h in lib.dates
    ensures |ds| == |hs|
  {
    seq(|hs|, i requires 0 <= i < |hs| => lib.dates[hs[i]])
  }

  /** Lines 237 and 256-259: the last of the dates `ds` that parses, if any. */
  function LastParsed(parse: string -> Option<string>, ds: seq<string>): (r: Option<string>)
    ensures r.None? <==> forall i :: 0 <= i < |ds| ==> parse(ds[i]).None?
    ensures r.Some? ==> exists i :: 0 <= i < |ds| && parse(ds[i]) == r && Unparsed(parse, ds, i + 1)
  {
    if ds == [] then None
    else
      var init, d := ds[..|ds| - 1], ds[|ds| - 1];
      assert forall i :: 0 <= i < |init| ==> init[i] == ds[i];
      match parse(d)
      case Some(_) => parse(d)
      case None => LastParsed(parse, init)
  }

  /** No date of `ds` from index `i` on parses. */
  ghost predicate Unparsed(parse: string -> Option<string>, ds: seq<string>, i: nat) {
    forall j :: i <= j < |ds| ==> parse(ds[j]).None?
  }

  /** The output directory: file name to content. */
  class OutputDir {
    var files: map<string, string>

    constructor(files0: map<string, string>)
      ensures files == files0
    {
      files := files0;
    }

    /** Lines 219 and 227-255: writing to a file opened with mode `a`, which creates it when missing. */
    method Append(name: string, s: string)
      modifies this
      ensures files == old(files)[name := (if name in old(files) then old(files)[name] else []) + s]
    {
      files := files[name := (if name in files then files[name] else []) + s];
    }

    /** Lines 87-110: the hashes of all the comment lines of the scanned files. */
    method ExistingHashes() returns (existing: set<string>)
      ensures existing == ScanDir(files)
    {
      var all := files;
      existing := {};
      var todo := all.Keys;
      ghost var done: set<string> := {};
      while todo != {}
        invariant todo <= all.Keys && done + todo == all.Keys
        invariant existing == ScannedAmong(all, done)
        decreases |todo|
      {
        var n :| n in todo;
        var found := ScanEntry(n, all[n]);
        ScannedAmongAdd(all, done, n);
        existing := existing + found;
        done := done + {n};
        todo := todo - {n};
      }
      ScannedAmongAll(all, done);
    }
  }

  /** Lines 239-259: the new notes of publication `k` appended to the file `name`. */
  method WriteNotes(dir: OutputDir, lib: Library, k: string, existing: set<string>, name: string,
                    parse: string -> Option<string>) returns (lastDate: Option<string>)
    requires GroupReady(lib, k) && name in dir.files
    modifies dir
    ensures dir.files == old(dir.files)[name := old(dir.files)[name] + Entries(lib, k, NewHashes(lib, k, existing))]
    ensures lastDate == LastParsed(parse, DatesOf(lib, lib.pubHashes[k]))
  {
    var hs := lib.pubHashes[k];
    ghost var start := dir.files[name];
    ghost var ds := DatesOf(lib, hs);
    lastDate := None;
    WrittenNone(lib, k, existing);
    assert start + WrittenUpTo(lib, k, existing, 0) == start;
    assert dir.files == old(dir.files)[name := start];
    for i := 0 to |hs|
      invariant dir.files == old(dir.files)[name := start + WrittenUpTo(lib, k, existing, i)]
      invariant lastDate == LastParsed(parse, ds[..i])
    {
      var h := hs[i];
      WrittenUpdate(old(dir.files), name, start, lib, k, existing, i);
      WriteNote(dir, lib, k, existing, name, h);
      LastParsedStep(parse, ds, i);
      var d := parse(lib.dates[h]);
      if d.Some? {
        lastDate := d;
      }
    }
    WrittenAll(lib, k, existing);
    assert ds[..|hs|] == ds;
  }

  /** What lines 243-254 write for note `h`: nothing when it is present already, its entry otherwise. */
  function NoteOutput(lib: Library, k: string, existing: set<string>, h: string): string
    requires GroupReady(lib, k) && NoteReady(lib, h)
  {
    if h in existing then [] else NoteEntry(lib, k, h)
  }

  /** Lines 243-254: note `h` appended to the file `name` unless it is present already. */
  method WriteNote(dir: OutputDir, lib: Library, k: string, existing: set<string>, name: string, h: string)
    requires GroupReady(lib, k) && NoteReady(lib, h) && name in dir.files
    modifies dir
    ensures dir.files == old(dir.files)[name := old(dir.files)[name] + NoteOutput(lib, k, existing, h)]
  {
    if h !in existing {
      dir.Append(name, NoteEntry(lib, k, h));
    } else {
      assert old(dir.files)[name] + [] == old(dir.files)[name];
    }
  }

  lemma {:induction false} LastParsedStep(parse: string -> Option<string>, ds: seq<string>, i: nat)
    requires i < |ds|
    ensures LastParsed(parse, ds[..i + 1]) == if parse(ds[i]).Some? then parse(ds[i]) else LastParsed(parse, ds[..i])
  {
    assert ds[..i + 1][..i] == ds[..i];
  }

  lemma {:induction false} Associative(a: string, b: string, c: string)
    ensures a + b + c == a + (b + c)
  {
  }

  lemma {:induction false} UpdateTwice(m: map<string, string>, key: string, a: string, b: string)
    ensures m[key := a][key := b] == m[key := b]
  {
  }

  /** The entries of the new notes among the first `i` hashes of publication `k`. */
  function WrittenUpTo(lib: Library, k: string, existing: set<string>, i: nat): string
    requires GroupReady(lib, k) && i <= |lib.pubHashes[k]|
  {
    var hs := lib.pubHashes[k];
    assert forall h :: h in hs[..i] ==> h in hs;
    Entries(lib, k, FreshHashes(hs[..i], existing))
  }

  lemma {:induction false} WrittenNone(lib: Library, k: string, existing: set<string>)
    requires GroupReady(lib, k)
    ensures WrittenUpTo(lib, k, existing, 0) == []
  {
    assert lib.pubHashes[k][..0] == [];
  }

  lemma {:induction false} WrittenAll(lib: Library, k: string, existing: set<string>)
    requires GroupReady(lib, k)
    ensures WrittenUpTo(lib, k, existing, |lib.pubHashes[k]|) == Entries(lib, k, NewHashes(lib, k, existing))
  {
    assert lib.pubHashes[k][..|lib.pubHashes[k]|] == lib.pubHashes[k];
  }

  /** The file after one more hash of the note loop, as a directory update. */
  lemma {:induction false} WrittenUpdate(m: map<string, string>, name: string, start: string,
                                         lib: Library, k: string, existing: set<string>, i: nat)
    requires GroupReady(lib, k) && i < |lib.pubHashes[k]|
    ensures var h := lib.pubHashes[k][i];
      var content := start + WrittenUpTo(lib, k, existing, i);
      NoteReady(lib, h) &&
      m[name := content][name := m[name := content][name] + NoteOutput(lib, k, existing, h)]
        == m[name := start + WrittenUpTo(lib, k, existing, i + 1)]
  {
    var h := lib.pubHashes[k][i];
    WrittenStep(lib, k, existing, i);
    var content := start + WrittenUpTo(lib, k, existing, i);
    var added := NoteOutput(lib, k, existing, h);
    Associative(start, WrittenUpTo(lib, k, existing, i), added);
    UpdateTwice(m, name, content, content + added);
  }

  /** One more hash of the publication adds its entry when it is new, and nothing otherwise. */
  lemma {:induction false} WrittenStep(lib: Library, k: string, existing: set<string>, i: nat)
    requires GroupReady(lib, k) && i < |lib.pubHashes[k]|
    ensures var h := lib.pubHashes[k][i];
      NoteReady(lib, h) &&
      WrittenUpTo(lib, k, existing, i + 1) == WrittenUpTo(lib, k, existing, i) + NoteOutput(lib, k, existing, h)
  {
    var hs := lib.pubHashes[k];
    var prefix := hs[..i + 1];
    assert prefix[..i] == hs[..i] && prefix[i] == hs[i];
    var a := FreshHashes(hs[..i], existing);
    assert forall h :: h in prefix ==> h in hs;
    if hs[i] !in existing {
      assert FreshHashes(prefix, existing) == a + [hs[i]];
      assert (a + [hs[i]])[..|a|] == a;
    } else {
      assert FreshHashes(prefix, existing) == a;
    }
  }

  /**
   * Lines 186-261 for publication `k`; returns the last parsed note date,
   * which the script gives the file as its modification time.
   */
  method WriteGroup(dir: OutputDir, lib: Library, k: string, existing: set<string>,
                    parse: string -> Option<string>) returns (lastDate: Option<string>)
    requires GroupReady(lib, k)
    modifies dir
    ensures dir.files == WriteGroupSpec(old(dir.files), lib, k, GroupFile(lib, k), existing)
    ensures NewHashes(lib, k, existing) != [] ==> lastDate == LastParsed(parse, DatesOf(lib, lib.pubHashes[k]))
  {
    var hs := lib.pubHashes[k];
    var author, title := lib.pubAuthor[k], lib.pubTitle[k];
    var short := |lib.pubNotes[k]| <= 2;
    var newHashes := CountNew(hs, existing);
    if newHashes == 0 {
      return None;
    }
    var name := GroupFile(lib, k);
    var present := name in dir.files;
    ghost var base := Content(dir.files, name);
    var header := Header(short, present, author, title);
    dir.Append(name, header);
    ghost var entries := Entries(lib, k, NewHashes(lib, k, existing));
    lastDate := WriteNotes(dir, lib, k, existing, name, parse);
    UpdateTwice(old(dir.files), name, base + header, base + header + entries);
  }

  /** Lines 186-261: every publication in first-seen order. */
  method WriteAll(dir: OutputDir, lib: Library, existing: set<string>, parse: string -> Option<string>)
    requires Ready(lib)
    modifies dir
    ensures dir.files == RunSpec(old(dir.files), lib, GroupFiles(lib), existing, |lib.order|)
  {
    for i := 0 to |lib.order|
      invariant dir.files == RunSpec(old(dir.files), lib, GroupFiles(lib), existing, i)
    {
      var _ := WriteGroup(dir, lib, lib.order[i], existing, parse);
    }
  }

  /** Lines 84-261: scan the directory, parse the log, then write. */
  method Run(dir: OutputDir, env: Env, log: string) returns (r: ParseResult)
    modifies dir
    ensures r == ParseLog(env, log)
    ensures dir.files == Script(env, log, old(dir.files))
  {
    var existing := dir.ExistingHashes();
    var lib;
    r, lib := ParseClippings(env, log);
    if r.Parsed? {
      ParsedRecordsWellParsed(env, log, if |log| == 0 then 0 else 1);
      CollectReady(r.notes);
      WriteAll(dir, lib, existing, env.parseDate);
    }
  }

  /** Text that is empty or whose last line is complete. */
  predicate EndsLine(s: string) {
    s == [] || s[|s| - 1] == '\n'
  }

  /** Every file of the directory is empty or ends with a newline. */
  ghost predicate Terminated(files: map<string, string>) {
    forall n :: n in files ==> EndsLine(files[n])
  }

  /**
   * Appending to a file keeps every hash the directory scan found, and when
   * the file is scanned at all the scan also finds what was appended.
   */
  lemma {:induction false} AppendScanned(files: map<string, string>, name: string, extra: string)
    requires name in files ==> EndsLine(files[name])
    ensures var files' := files[name := Content(files, name) + extra];
      && ScanDir(files) <= ScanDir(files')
      && (IsScanned(name) ==> Captures(extra) <= ScanDir(files'))
  {
    var base := Content(files, name);
    var files' := files[name := base + extra];
    CapturesAppend(base, extra);
    forall h | h in ScanDir(files) ensures h in ScanDir(files') {
      var n := ScanDirSource(files, h);
      if n == name {
        assert h in Captures(files'[name]);
      } else {
        assert files'[n] == files[n];
      }
      ScanDirHas(files', n, h);
    }
    if IsScanned(name) {
      forall h | h in Captures(extra) ensures h in ScanDir(files') {
        assert h in Captures(files'[name]);
        ScanDirHas(files', name, h);
      }
    }
  }

  /**
   * Appending a publication's header and new entries keeps the files
   * terminated and the hashes found, and a scanned file then yields every
   * new hash.
   */
  lemma {:induction false} AppendGroupGrows(files: map<string, string>, lib: Library, k: string, name: string, existing: set<string>)
    requires GroupReady(lib, k) && Terminated(files) && NewHashes(lib, k, existing) != []
    ensures var files' := AppendGroup(files, lib, k, name, existing);
      && Terminated(files')
      && ScanDir(files) <= ScanDir(files')
      && (IsScanned(name) ==> forall h :: h in NewHashes(lib, k, existing) ==> h in ScanDir(files'))
  {
    var newOnes := NewHashes(lib, k, existing);
    var header := Header(|lib.pubNotes[k]| <= 2, name in files, lib.pubAuthor[k], lib.pubTitle[k]);
    var entries := Entries(lib, k, newOnes);
    assert AppendGroup(files, lib, k, name, existing) == files[name := Content(files, name) + header + entries];
    AppendEntriesGrows(files, name, header, entries);
    EntriesCaptured(lib, k, newOnes);
  }

  /** Writing one publication keeps every file empty or ending with a newline. */
  lemma {:induction false} WriteGroupTerminated(files: map<string, string>, lib: Library, k: string, name: string, existing: set<string>)
    requires GroupReady(lib, k) && Terminated(files)
    ensures Terminated(WriteGroupSpec(files, lib, k, name, existing))
  {
    if NewHashes(lib, k, existing) != [] {
      AppendGroupGrows(files, lib, k, name, existing);
    }
  }

  /** Writing one publication loses none of the hashes the scan finds. */
  lemma {:induction false} WriteGroupScanGrows(files: map<string, string>, lib: Library, k: string, name: string, existing: set<string>)
    requires GroupReady(lib, k) && Terminated(files)
    ensures ScanDir(files) <= ScanDir(WriteGroupSpec(files, lib, k, name, existing))
  {
    if NewHashes(lib, k, existing) != [] {
      AppendGroupGrows(files, lib, k, name, existing);
    }
  }

  /**
   * After one publication is written to a file the scan reads, each of its
   * hashes was present before or is found by the scan.
   */
  lemma {:induction false} WriteGroupCovers(files: map<string, string>, lib: Library, k: string, name: string, existing: set<string>)
    requires GroupReady(lib, k) && Terminated(files) && IsScanned(name)
    ensures forall h :: h in lib.pubHashes[k] ==> h in existing || h in ScanDir(WriteGroupSpec(files, lib, k, name, existing))
  {
    FreshHashesMembers(lib.pubHashes[k], existing);
    if NewHashes(lib, k, existing) != [] {
      AppendGroupGrows(files, lib, k, name, existing);
    }
  }

  /**
   * A header ending a line and a non-empty run of entries appended to a file
   * keep the files terminated and the hashes found, and the scan then finds
   * every hash the entries yield when the file is scanned.
   */
  lemma {:induction false} AppendEntriesGrows(files: map<string, string>, name: string, header: string, entries: string)
    requires Terminated(files) && EndsLine(header) && entries != [] && EndsLine(entries)
    ensures var files' := files[name := Content(files, name) + header + entries];
      && Terminated(files')
      && ScanDir(files) <= ScanDir(files')
      && (IsScanned(name) ==> Captures(entries) <= ScanDir(files'))
  {
    var base := Content(files, name);
    Associative(base, header, entries);
    var text := base + (header + entries);
    assert text[|text| - 1] == entries[|entries| - 1];
    TerminatedUpdate(files, name, text);
    AppendScanned(files, name, header + entries);
    CapturesAppend(header, entries);
  }

  lemma {:induction false} TerminatedUpdate(files: map<string, string>, name: string, text: string)
    requires Terminated(files) && EndsLine(text)
    ensures Terminated(files[name := text])
  {
  }

  /** The file of every publication in first-seen order is read by the next scan. */
  ghost predicate Visible(lib: Library)
    requires Ready(lib)
  {
    forall i :: 0 <= i < |lib.order| ==> GroupFile(lib, lib.order[i])[0] != '.'
  }

  /** Every one of the files `names` is read by the scan. */
  ghost predicate AllScanned(names: seq<string>) {
    forall i :: 0 <= i < |names| ==> IsScanned(names[i])
  }

  lemma {:induction false} VisibleScanned(lib: Library)
    requires Ready(lib) && Visible(lib)
    ensures AllScanned(GroupFiles(lib))
  {
    forall i | 0 <= i < |lib.order| ensures IsScanned(GroupFiles(lib)[i]) {
      GroupFileScanned(lib, lib.order[i]);
    }
  }

  /** Every hash of the first `n` publications was present before or is among `found`. */
  ghost predicate Covered(lib: Library, existing: set<string>, found: set<string>, n: nat)
    requires Ready(lib) && n <= |lib.order|
  {
    forall i, h :: 0 <= i < n && h in lib.pubHashes[lib.order[i]] ==> h in existing || h in found
  }

  /** Coverage of `n + 1` publications is coverage of the first `n` and of the last. */
  lemma {:induction false} CoveredLast(lib: Library, existing: set<string>, found: set<string>, n: nat)
    requires Ready(lib) && n < |lib.order| && Covered(lib, existing, found, n + 1)
    ensures Covered(lib, existing, found, n)
    ensures forall h :: h in lib.pubHashes[lib.order[n]] ==> h in existing || h in found
  {
  }

  /** Writing the first `n` publications keeps every file empty or ending with a newline. */
  lemma {:induction false} RunTerminated(files: map<string, string>, lib: Library, names: seq<string>, existing: set<string>, n: nat)
    requires Ready(lib) && |names| == |lib.order| && n <= |lib.order| && Terminated(files)
    ensures Terminated(RunSpec(files, lib, names, existing, n))
  {
    if n > 0 {
      var prev := RunSpec(files, lib, names, existing, n - 1);
      RunTerminated(files, lib, names, existing, n - 1);
      WriteGroupTerminated(prev, lib, lib.order[n - 1], names[n - 1], existing);
    }
  }

  /** Writing the first `n` publications loses none of the hashes the scan finds. */
  lemma {:induction false} RunScanGrows(files: map<string, string>, lib: Library, names: seq<string>, existing: set<string>, n: nat)
    requires Ready(lib) && |names| == |lib.order| && n <= |lib.order| && Terminated(files)
    ensures ScanDir(files) <= ScanDir(RunSpec(files, lib, names, existing, n))
  {
    var found := ScanTrace(files, lib, names, existing, n);
    SubsetChain(found, 0, n);
  }

  /** What the scan finds after each of the first `n` publications is written; it only grows. */
  ghost function ScanTrace(files: map<string, string>, lib: Library, names: seq<string>, existing: set<string>, n: nat): (found: seq<set<string>>)
    requires Ready(lib) && |names| == |lib.order| && n <= |lib.order| && Terminated(files)
    ensures |found| == n + 1
    ensures forall i :: 0 <= i <= n ==> found[i] == ScanDir(RunSpec(files, lib, names, existing, i))
    ensures forall i :: 0 < i < |found| ==> found[i - 1] <= found[i]
  {
    var found := seq(n + 1, i requires 0 <= i <= n => ScanDir(RunSpec(files, lib, names, existing, i)));
    forall i | 0 < i < |found| ensures found[i - 1] <= found[i] {
      RunScanStep(files, lib, names, existing, i);
    }
    found
  }

  /** Sets that grow from each one to the next grow from any one to any later one. */
  lemma {:induction false} SubsetChain(sets: seq<set<string>>, m: nat, n: nat)
    requires m <= n < |sets| && forall i :: 0 < i < |sets| ==> sets[i - 1] <= sets[i]
    ensures sets[m] <= sets[n]
  {
    if m < n {
      SubsetChain(sets, m, n - 1);
      SubsetTransitive(sets[m], sets[n - 1], sets[n]);
    }
  }

  /** Writing the publication at index `n - 1` loses none of the hashes the scan finds. */
  lemma {:induction false} RunScanStep(files: map<string, string>, lib: Library, names: seq<string>, existing: set<string>, n: nat)
    requires Ready(lib) && |names| == |lib.order| && 0 < n <= |lib.order| && Terminated(files)
    ensures ScanDir(RunSpec(files, lib, names, existing, n - 1)) <= ScanDir(RunSpec(files, lib, names, existing, n))
  {
    RunTerminated(files, lib, names, existing, n - 1);
    WriteGroupScanGrows(RunSpec(files, lib, names, existing, n - 1), lib, lib.order[n - 1], names[n - 1], existing);
  }

  /**
   * After the first `n` publications are written to files the scan reads,
   * each of their hashes was present before or is found by the scan.
   */
  lemma {:induction false} RunCovers(files: map<string, string>, lib: Library, names: seq<string>, existing: set<string>, n: nat)
    requires Ready(lib) && |names| == |lib.order| && AllScanned(names) && n <= |lib.order| && Terminated(files)
    ensures Covered(lib, existing, ScanDir(RunSpec(files, lib, names, existing, n)), n)
  {
    var found := ScanTrace(files, lib, names, existing, n);
    forall i, h | 0 <= i < n && h in lib.pubHashes[lib.order[i]] ensures h in existing || h in found[n] {
      RunCoverStep(files, lib, names, existing, i + 1);
      SubsetChain(found, i + 1, n);
    }
  }

  /** Each hash of the publication at index `n - 1` was present before or is found once it is written. */
  lemma {:induction false} RunCoverStep(files: map<string, string>, lib: Library, names: seq<string>, existing: set<string>, n: nat)
    requires Ready(lib) && |names| == |lib.order| && AllScanned(names) && 0 < n <= |lib.order| && Terminated(files)
    ensures forall h :: h in lib.pubHashes[lib.order[n - 1]] ==> h in existing || h in ScanDir(RunSpec(files, lib, names, existing, n))
  {
    RunTerminated(files, lib, names, existing, n - 1);
    WriteGroupCovers(RunSpec(files, lib, names, existing, n - 1), lib, lib.order[n - 1], names[n - 1], existing);
  }

  lemma {:induction false} SubsetTransitive(x: set<string>, y: set<string>, z: set<string>)
    requires x <= y && y <= z
    ensures x <= z
  {
  }

  /** Publications none of whose hashes is new leave the directory as it is. */
  lemma {:induction false} RunUnchanged(files: map<string, string>, lib: Library, names: seq<string>, existing: set<string>, n: nat)
    requires Ready(lib) && |names| == |lib.order| && n <= |lib.order| && Covered(lib, existing, {}, n)
    ensures RunSpec(files, lib, names, existing, n) == files
  {
    if n > 0 {
      var k := lib.order[n - 1];
      assert GroupReady(lib, k);
      CoveredLast(lib, existing, {}, n - 1);
      RunUnchanged(files, lib, names, existing, n - 1);
      WriteGroupUnchanged(files, lib, k, names[n - 1], existing);
      assert RunSpec(files, lib, names, existing, n) == WriteGroupSpec(files, lib, k, names[n - 1], existing);
    }
  }

  /** A publication all of whose hashes are present writes nothing (lines 205-213). */
  lemma {:induction false} WriteGroupUnchanged(files: map<string, string>, lib: Library, k: string, name: string, existing: set<string>)
    requires GroupReady(lib, k) && forall h :: h in lib.pubHashes[k] ==> h in existing
    ensures WriteGroupSpec(files, lib, k, name, existing) == files
  {
    var hs := lib.pubHashes[k];
    forall i | 0 <= i < |hs| ensures hs[i] in existing {
      assert hs[i] in hs;
    }
    FreshHashesNone(hs, existing);
  }

  /**
   * A second run over the directory a run produced writes nothing, when the
   * files were terminated and no publication file name starts with `.`.
   */
  lemma {:induction false} RunIdempotent(files: map<string, string>, lib: Library)
    requires Ready(lib) && Visible(lib) && Terminated(files)
    ensures RunLibrary(RunLibrary(files, lib), lib) == RunLibrary(files, lib)
  {
    var names := GroupFiles(lib);
    var existing := ScanDir(files);
    var files' := RunSpec(files, lib, names, existing, |lib.order|);
    VisibleScanned(lib);
    RunScanGrows(files, lib, names, existing, |lib.order|);
    RunCovers(files, lib, names, existing, |lib.order|);
    CoveredAll(lib, existing, ScanDir(files'));
    RunUnchanged(files', lib, names, ScanDir(files'), |lib.order|);
  }

  /** Hashes present before the first run are found by the second scan too. */
  lemma {:induction false} CoveredAll(lib: Library, existing: set<string>, found: set<string>)
    requires Ready(lib) && Covered(lib, existing, found, |lib.order|) && existing <= found
    ensures Covered(lib, found, {}, |lib.order|)
  {
  }

  /** Every publication file of a successful parse of `log` is read by the next scan. */
  ghost predicate LogVisible(env: Env, log: string) {
    match ParseLog(env, log)
    case Parsed(ns) =>
      ParsedRecordsWellParsed(env, log, if |log| == 0 then 0 else 1);
      CollectReady(ns);
      Visible(Collect(ns))
    case _ => true
  }

  /**
   * Running the script twice on the same log leaves the directory as the
   * first run left it, when every file was empty or ended with a newline and
   * no publication file name starts with `.`.
   */
  lemma {:induction false} ScriptIdempotent(env: Env, log: string, files: map<string, string>)
    requires Terminated(files) && LogVisible(env, log)
    ensures Script(env, log, Script(env, log, files)) == Script(env, log, files)
  {
    match ParseLog(env, log)
    case Parsed(ns) =>
      ParsedRecordsWellParsed(env, log, if |log| == 0 then 0 else 1);
      CollectReady(ns);
      RunIdempotent(files, Collect(ns));
    case _ =>
  }

  /**
   * Lines 89-90 against 215: a publication file whose name starts with `.`
   * is never scanned, so a second run finds none of its notes and appends
   * them again.
   */
  lemma {:induction false} HiddenGroupWrittenAgain(files: map<string, string>, lib: Library, k: string)
    requires GroupReady(lib, k) && GroupFile(lib, k)[0] == '.'
    requires NewHashes(lib, k, ScanDir(files)) != []
    ensures var name := GroupFile(lib, k);
      var files' := WriteGroupSpec(files, lib, k, name, ScanDir(files));
      ScanDir(files') == ScanDir(files) && WriteGroupSpec(files', lib, k, name, ScanDir(files')) != files'
  {
    var name := GroupFile(lib, k);
    GroupFileScanned(lib, k);
    HiddenFileWrittenAgain(files, lib, k, name);
  }

  /** The same for any file the scan skips. */
  lemma {:induction false} HiddenFileWrittenAgain(files: map<string, string>, lib: Library, k: string, name: string)
    requires GroupReady(lib, k) && !IsScanned(name)
    requires NewHashes(lib, k, ScanDir(files)) != []
    ensures var files' := WriteGroupSpec(files, lib, k, name, ScanDir(files));
      ScanDir(files') == ScanDir(files) && WriteGroupSpec(files', lib, k, name, ScanDir(files')) != files'
  {
    var existing := ScanDir(files);
    var entries := Entries(lib, k, NewHashes(lib, k, existing));
    var files' := WriteGroupSpec(files, lib, k, name, existing);
    assert files' == AppendGroup(files, lib, k, name, existing);
    var text := Content(files, name)
      + Header(|lib.pubNotes[k]| <= 2, name in files, lib.pubAuthor[k], lib.pubTitle[k]) + entries;
    assert files' == files[name := text];
    UnscannedUpdate(files, name, text);
    var again := WriteGroupSpec(files', lib, k, name, existing);
    assert again == AppendGroup(files', lib, k, name, existing);
    assert |again[name]| >= |files'[name]| + |entries| > |files'[name]|;
  }

  /**
   * Lines 215 and 233-235 against 101-104: when the own file of a
   * publication with more than two notes exists and its last line `u` is
   * incomplete, no header is written, and the first comment appended joins
   * `u`. The next scan then finds only what the entries yield after their
   * first line.
   */
  lemma {:induction false} UnterminatedScan(files: map<string, string>, lib: Library, k: string, name: string, a: string, u: string)
    requires GroupReady(lib, k) && |lib.pubNotes[k]| > 2 && name in files && IsScanned(name)
    requires files[name] == a + u && EndsLine(a) && u != [] && '\n' !in u && u[0] != '.'
    requires NewHashes(lib, k, ScanDir(files)) != []
    ensures var e := Entries(lib, k, NewHashes(lib, k, ScanDir(files)));
      ScanDir(WriteGroupSpec(files, lib, k, name, ScanDir(files))) == ScanDir(files) + CapturesOf(LinesFrom(e, ReadLine(e, 0).1))
  {
    var existing := ScanDir(files);
    var e := Entries(lib, k, NewHashes(lib, k, existing));
    AppendWithoutHeader(files, lib, k, name, existing);
    CapturesJoined(a, u, e);
    ScanReplace(files, name, a + u + e, CapturesOf(LinesFrom(e, ReadLine(e, 0).1)));
  }

  /** No header goes to the existing own file of a publication with more than two notes (line 233). */
  lemma {:induction false} AppendWithoutHeader(files: map<string, string>, lib: Library, k: string, name: string, existing: set<string>)
    requires GroupReady(lib, k) && |lib.pubNotes[k]| > 2 && name in files
    requires NewHashes(lib, k, existing) != []
    ensures WriteGroupSpec(files, lib, k, name, existing) == files[name := files[name] + Entries(lib, k, NewHashes(lib, k, existing))]
  {
    var header := Header(|lib.pubNotes[k]| <= 2, name in files, lib.pubAuthor[k], lib.pubTitle[k]);
    assert header == [];
    assert Content(files, name) + header == files[name];
  }

  /**
   * So a second run writes the publication again when the first new note's
   * hash is not found anywhere else in what was appended, which is
   * `Writer.RunIdempotent`'s need for files that end with a newline.
   */
  lemma {:induction false} UnterminatedFileWrittenAgain(files: map<string, string>, lib: Library, k: string, name: string, a: string, u: string)
    requires GroupReady(lib, k) && |lib.pubNotes[k]| > 2 && name in files && IsScanned(name)
    requires files[name] == a + u && EndsLine(a) && u != [] && '\n' !in u && u[0] != '.'
    requires NewHashes(lib, k, ScanDir(files)) != []
    requires var e := Entries(lib, k, NewHashes(lib, k, ScanDir(files)));
      NewHashes(lib, k, ScanDir(files))[0] !in CapturesOf(LinesFrom(e, ReadLine(e, 0).1))
    ensures var files' := WriteGroupSpec(files, lib, k, name, ScanDir(files));
      NewHashes(lib, k, ScanDir(files))[0] !in ScanDir(files') && WriteGroupSpec(files', lib, k, name, ScanDir(files')) != files'
  {
    var existing := ScanDir(files);
    var hs := NewHashes(lib, k, existing);
    var h := hs[0];
    var files' := WriteGroupSpec(files, lib, k, name, existing);
    UnterminatedScan(files, lib, k, name, a, u);
    FreshHashesMembers(lib.pubHashes[k], existing);
    assert h in hs;
    assert h in lib.pubHashes[k] && h !in existing;
    var found := ScanDir(files');
    FreshHashesMembers(lib.pubHashes[k], found);
    assert h in NewHashes(lib, k, found);
    var again := WriteGroupSpec(files', lib, k, name, found);
    var entries := Entries(lib, k, NewHashes(lib, k, found));
    assert again == AppendGroup(files', lib, k, name, found);
    assert |again[name]| >= |files'[name]| + |entries| > |files'[name]|;
  }

  /** Rewriting a scanned file so that it yields `extra` besides what it yielded adds `extra` to the scan. */
  lemma {:induction false} ScanReplace(files: map<string, string>, name: string, text: string, extra: set<string>)
    requires name in files && IsScanned(name) && Captures(text) == Captures(files[name]) + extra
    ensures ScanDir(files[name := text]) == ScanDir(files) + extra
  {
    ScanReplaceFrom(files, name, text, extra);
    ScanReplaceTo(files, name, text, extra);
  }

  /** One half of `ScanReplace`: nothing else is found. */
  lemma {:induction false} ScanReplaceFrom(files: map<string, string>, name: string, text: string, extra: set<string>)
    requires name in files && IsScanned(name) && Captures(text) == Captures(files[name]) + extra
    ensures ScanDir(files[name := text]) <= ScanDir(files) + extra
  {
    var files' := files[name := text];
    forall h | h in ScanDir(files') ensures h in ScanDir(files) + extra {
      var n := ScanDirSource(files', h);
      if n != name {
        assert files'[n] == files[n];
        ScanDirHas(files, n, h);
      } else if h !in extra {
        ScanDirHas(files, name, h);
      }
    }
  }

  /** The other half of `ScanReplace`: everything is found. */
  lemma {:induction false} ScanReplaceTo(files: map<string, string>, name: string, text: string, extra: set<string>)
    requires name in files && IsScanned(name) && Captures(text) == Captures(files[name]) + extra
    ensures ScanDir(files) + extra <= ScanDir(files[name := text])
  {
    var files' := files[name := text];
    forall h | h in extra ensures h in ScanDir(files') {
      ScanDirHas(files', name, h);
    }
    forall h | h in ScanDir(files) ensures h in ScanDir(files') {
      var n := ScanDirSource(files, h);
      if n != name {
        assert files'[n] == files[n];
      }
      ScanDirHas(files', n, h);
    }
  }

  /** Writing a file the scan skips changes nothing the scan finds. */
  lemma {:induction false} UnscannedUpdate(files: map<string, string>, name: string, text: string)
    requires !IsScanned(name)
    ensures ScanDir(files[name := text]) == ScanDir(files)
  {
    var files' := files[name := text];
    forall h | h in ScanDir(files') ensures h in ScanDir(files) {
      var n := ScanDirSource(files', h);
      assert n != name && files'[n] == files[n];
      ScanDirHas(files, n, h);
    }
    forall h | h in ScanDir(files) ensures h in ScanDir(files') {
      var n := ScanDirSource(files, h);
      assert n != name && files'[n] == files[n];
      ScanDirHas(files', n, h);
    }
  }
}
