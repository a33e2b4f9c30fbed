/**
 * The tables the parse loop fills (extract-kindle-clippings.py:74-82 and
 * 155-180): per publication (keyed by the stripped title line) its title,
 * author, note texts and note hashes, and per note hash its text, location
 * string, type and date.
 */
module Grouping {
  import opened Wrappers
  import opened Text
  import opened Lines
  import opened TitleLine
  import opened InfoLine
  import opened Identity
  import opened Parser

  /**
   * The parse loop's dictionaries. `order` is the key order of `pub_title`:
   * a Python dictionary keeps its keys in first-insertion order, and
   * assigning to a key it already has does not move it.
   */
  datatype Library = Library(
    order: seq<string>,
    pubTitle: map<string, string>,
    pubAuthor: map<string, string>,
    pubNotes: map<string, seq<string>>,
    pubHashes: map<string, seq<string>>,
    notes: map<string, string>,
    locations: map<string, string>,
    types: map<string, string>,
    dates: map<string, string>)

  const Empty := Library([], map[], map[], map[], map[], map[], map[], map[], map[])

  /** `order` lists each publication key once. */
  ghost predicate OrderListsKeys(lib: Library) {
    && (forall k :: k in lib.order <==> k in lib.pubTitle)
    && (forall a, b :: 0 <= a < b < |lib.order| ==> lib.order[a] != lib.order[b])
  }

  /** The publication tables have the same keys, and as many hashes as note texts. */
  ghost predicate KeysAgree(lib: Library) {
    && lib.pubAuthor.Keys == lib.pubTitle.Keys
    && lib.pubNotes.Keys == lib.pubTitle.Keys
    && lib.pubHashes.Keys == lib.pubTitle.Keys
    && (forall k :: k in lib.pubNotes ==> |lib.pubNotes[k]| == |lib.pubHashes[k]|)
  }

  /** Every hash of a publication has an entry in each per-hash table. */
  ghost predicate HashesResolved(lib: Library) {
    forall k, h :: k in lib.pubHashes && h in lib.pubHashes[k] ==>
      h in lib.notes && h in lib.locations && h in lib.types && h in lib.dates
  }

  /** The tables agree with each other. */
  ghost predicate WellFormed(lib: Library) {
    OrderListsKeys(lib) && KeysAgree(lib) && HashesResolved(lib)
  }

  /** Lines 155-162 and 177-180: the tables after one more record. */
  function AddNote(lib: Library, n: Note): Library
    requires n.key in lib.pubNotes ==> n.key in lib.pubHashes
  {
    var k := n.key;
    var pubNotes := if k in lib.pubNotes then lib.pubNotes else lib.pubNotes[k := []];
    var pubHashes := if k in lib.pubNotes then lib.pubHashes else lib.pubHashes[k := []];
    Library(
      if k in lib.pubTitle then lib.order else lib.order + [k],
      lib.pubTitle[k := n.title],
      lib.pubAuthor[k := n.author],
      pubNotes[k := pubNotes[k] + [n.text]],
      pubHashes[k := pubHashes[k] + [n.hash]],
      lib.notes[n.hash := n.text],
      lib.locations[n.hash := n.locStr],
      lib.types[n.hash := n.noteType],
      lib.dates[n.hash := n.date])
  }

  /** Adding a record keeps the tables in agreement. */
  lemma {:induction false} AddNoteWellFormed(lib: Library, n: Note)
    requires WellFormed(lib)
    ensures WellFormed(AddNote(lib, n))
  {
    AddNoteOrder(lib, n);
    AddNoteKeys(lib, n);
    AddNoteHashes(lib, n);
  }

  lemma {:induction false} AddNoteOrder(lib: Library, n: Note)
    requires WellFormed(lib)
    ensures OrderListsKeys(AddNote(lib, n))
  {
    var r := AddNote(lib, n);
    var k := n.key;
    forall k' ensures k' in r.order <==> k' in r.pubTitle {
      if k' != k {
        assert k' in r.order <==> k' in lib.order;
      }
    }
    forall a, b | 0 <= a < b < |r.order| ensures r.order[a] != r.order[b] {
      if k !in lib.pubTitle && b == |lib.order| {
        assert r.order[a] == lib.order[a];
      }
    }
  }

  lemma {:induction false} AddNoteKeys(lib: Library, n: Note)
    requires WellFormed(lib)
    ensures KeysAgree(AddNote(lib, n))
  {
    AddNoteKeySets(lib, n);
    AddNoteCounts(lib, n);
  }

  lemma {:induction false} AddNoteKeySets(lib: Library, n: Note)
    requires WellFormed(lib)
    ensures var r := AddNote(lib, n);
      r.pubAuthor.Keys == r.pubTitle.Keys && r.pubNotes.Keys == r.pubTitle.Keys && r.pubHashes.Keys == r.pubTitle.Keys
  {
  }

  lemma {:induction false} AddNoteCounts(lib: Library, n: Note)
    requires WellFormed(lib)
    ensures var r := AddNote(lib, n);
      forall k :: k in r.pubNotes ==> |r.pubNotes[k]| == |r.pubHashes[k]|
  {
  }

  lemma {:induction false} AddNoteHashes(lib: Library, n: Note)
    requires WellFormed(lib)
    ensures HashesResolved(AddNote(lib, n))
  {
    var r := AddNote(lib, n);
    var k := n.key;
    forall k', h | k' in r.pubHashes && h in r.pubHashes[k']
      ensures h in r.notes && h in r.locations && h in r.types && h in r.dates
    {
      if k' == k && h != n.hash {
        assert h in lib.pubHashes[k];
      }
    }
  }

  /** The tables after the records `ns`, in order. */
  function Collect(ns: seq<Note>): (lib: Library)
    ensures lib.pubNotes.Keys == lib.pubHashes.Keys
    ensures lib.pubAuthor.Keys == lib.pubTitle.Keys
  {
    if ns == [] then Empty else AddNote(Collect(ns[..|ns| - 1]), ns[|ns| - 1])
  }

  /** Records collected in order leave the tables in agreement. */
  lemma {:induction false} CollectWellFormed(ns: seq<Note>)
    ensures WellFormed(Collect(ns))
  {
    if ns != [] {
      CollectWellFormed(ns[..|ns| - 1]);
      AddNoteWellFormed(Collect(ns[..|ns| - 1]), ns[|ns| - 1]);
    }
  }

  lemma {:induction false} CollectSnoc(ns: seq<Note>, n: Note)
    ensures Collect(ns + [n]) == AddNote(Collect(ns), n)
  {
    assert (ns + [n])[..|ns|] == ns;
  }

  /** The index of the first record of publication `k`, or `|ns|` when there is none. */
  function FirstIndex(ns: seq<Note>, k: string): (i: nat)
    ensures i <= |ns|
    ensures i < |ns| ==> ns[i].key == k
    ensures forall j :: 0 <= j < i ==> ns[j].key != k
  {
    if ns == [] then 0
    else if ns[0].key == k then 0
    else 1 + FirstIndex(ns[1..], k)
  }

  lemma {:induction false} FirstIndexSnoc(ns: seq<Note>, n: Note, k: string)
    ensures FirstIndex(ns + [n], k) ==
      if FirstIndex(ns, k) < |ns| then FirstIndex(ns, k)
      else if n.key == k then |ns| else |ns| + 1
  {
    var s := ns + [n];
    assert forall j :: 0 <= j < |ns| ==> s[j] == ns[j];
    assert s[|ns|] == n;
  }

  /** A record's key joins `order` when it is not there yet. */
  lemma {:induction false} CollectOrderStep(init: seq<Note>, n: Note)
    ensures var order := Collect(init).order;
      Collect(init + [n]).order == if n.key in order then order else order + [n.key]
  {
    CollectSnoc(init, n);
    CollectWellFormed(init);
  }

  /**
   * `order` lists the publications of `ns`, each once, in the order of
   * their first records.
   */
  ghost predicate FirstSeen(ns: seq<Note>, order: seq<string>) {
    && (forall k :: k in order <==> FirstIndex(ns, k) < |ns|)
    && (forall a, b :: 0 <= a < b < |order| ==> FirstIndex(ns, order[a]) < FirstIndex(ns, order[b]))
  }

  lemma {:induction false} FirstSeenStep(ns: seq<Note>, order: seq<string>, n: Note)
    requires FirstSeen(ns, order)
    ensures FirstSeen(ns + [n], if n.key in order then order else order + [n.key])
  {
    if n.key in order {
      FirstSeenOld(ns, order, n);
    } else {
      FirstSeenNew(ns, order, n);
    }
  }

  lemma {:induction false} FirstSeenOld(ns: seq<Note>, order: seq<string>, n: Note)
    requires FirstSeen(ns, order) && n.key in order
    ensures FirstSeen(ns + [n], order)
  {
    forall k ensures k in order <==> FirstIndex(ns + [n], k) < |ns + [n]| {
      FirstIndexSnoc(ns, n, k);
    }
    forall a, b | 0 <= a < b < |order|
      ensures FirstIndex(ns + [n], order[a]) < FirstIndex(ns + [n], order[b])
    {
      FirstIndexSnoc(ns, n, order[a]);
      FirstIndexSnoc(ns, n, order[b]);
    }
  }

  lemma {:induction false} FirstSeenNew(ns: seq<Note>, order: seq<string>, n: Note)
    requires FirstSeen(ns, order) && n.key !in order
    ensures FirstSeen(ns + [n], order + [n.key])
  {
    var order' := order + [n.key];
    forall k ensures k in order' <==> FirstIndex(ns + [n], k) < |ns + [n]| {
      FirstIndexSnoc(ns, n, k);
    }
    forall a, b | 0 <= a < b < |order'|
      ensures FirstIndex(ns + [n], order'[a]) < FirstIndex(ns + [n], order'[b])
    {
      assert order'[a] == order[a];
      FirstIndexSnoc(ns, n, order[a]);
      FirstIndexSnoc(ns, n, order'[b]);
    }
  }

  /**
   * Line 186: publications are visited in the order their first record
   * appears in the log, and every publication of the log is visited once.
   */
  lemma {:induction false} FirstSeenOrder(ns: seq<Note>)
    ensures FirstSeen(ns, Collect(ns).order)
  {
    if ns != [] {
      var init, n := ns[..|ns| - 1], ns[|ns| - 1];
      assert ns == init + [n];
      FirstSeenOrder(init);
      CollectOrderStep(init, n);
      FirstSeenStep(init, Collect(init).order, n);
    }
  }

  /** The records of publication `k`, in log order. */
  function RecordsOf(ns: seq<Note>, k: string): (r: seq<Note>)
    ensures |r| <= |ns|
    ensures forall i :: 0 <= i < |r| ==> r[i].key == k
  {
    if ns == [] then []
    else (if ns[0].key == k then [ns[0]] else []) + RecordsOf(ns[1..], k)
  }

  lemma {:induction false} RecordsOfSnoc(ns: seq<Note>, n: Note, k: string)
    ensures RecordsOf(ns + [n], k) == RecordsOf(ns, k) + (if n.key == k then [n] else [])
  {
    if ns != [] {
      assert (ns + [n])[1..] == ns[1..] + [n];
      RecordsOfSnoc(ns[1..], n, k);
    }
  }

  function Texts(ns: seq<Note>): seq<string> {
    seq(|ns|, i requires 0 <= i < |ns| => ns[i].text)
  }

  function Hashes(ns: seq<Note>): seq<string> {
    seq(|ns|, i requires 0 <= i < |ns| => ns[i].hash)
  }

  /**
   * Lines 155-162: a publication's note texts and hashes are those of its
   * records, in log order; a key with no record has no entry.
   */
  lemma {:induction false} GroupInLogOrder(ns: seq<Note>, k: string)
    ensures k in Collect(ns).pubNotes ==>
      Collect(ns).pubNotes[k] == Texts(RecordsOf(ns, k)) &&
      Collect(ns).pubHashes[k] == Hashes(RecordsOf(ns, k))
    ensures k !in Collect(ns).pubNotes ==> RecordsOf(ns, k) == []
  {
    if ns != [] {
      var init, n := ns[..|ns| - 1], ns[|ns| - 1];
      assert ns == init + [n];
      GroupInLogOrder(init, k);
      CollectSnoc(init, n);
      RecordsOfSnoc(init, n, k);
      GroupStep(Collect(init), n, k, RecordsOf(init, k));
    }
  }

  /** One more record extends its own publication's lists and no other. */
  lemma {:induction false} GroupStep(lib: Library, n: Note, k: string, rs: seq<Note>)
    requires lib.pubNotes.Keys == lib.pubHashes.Keys
    requires k in lib.pubNotes ==> lib.pubNotes[k] == Texts(rs) && lib.pubHashes[k] == Hashes(rs)
    requires k !in lib.pubNotes ==> rs == []
    ensures var r, rs' := AddNote(lib, n), rs + (if n.key == k then [n] else []);
      && (k in r.pubNotes ==> r.pubNotes[k] == Texts(rs') && r.pubHashes[k] == Hashes(rs'))
      && (k !in r.pubNotes ==> rs' == [])
  {
    if n.key == k {
      assert Texts(rs + [n]) == Texts(rs) + [n.text];
      assert Hashes(rs + [n]) == Hashes(rs) + [n.hash];
    } else {
      assert rs + [] == rs;
    }
  }

  /** A record whose title and author are those its title line splits into. */
  predicate TitledByKey(n: Note) {
    '\n' !in n.key && (n.title, n.author) == SplitTitle(n.key)
  }

  /** Every publication's title and author are those its key splits into. */
  ghost predicate TitlesFromKeys(lib: Library) {
    forall k :: k in lib.pubTitle ==>
      k in lib.pubAuthor && '\n' !in k && (lib.pubTitle[k], lib.pubAuthor[k]) == SplitTitle(k)
  }

  lemma {:induction false} AddNoteTitles(lib: Library, n: Note)
    requires n.key in lib.pubNotes ==> n.key in lib.pubHashes
    requires TitlesFromKeys(lib) && TitledByKey(n)
    ensures TitlesFromKeys(AddNote(lib, n))
  {
  }

  /**
   * Lines 159-160: a publication's title and author are those its title
   * line splits into, whichever of its records was added last.
   */
  lemma {:induction false} TitleOfGroup(ns: seq<Note>)
    requires forall i :: 0 <= i < |ns| ==> TitledByKey(ns[i])
    ensures TitlesFromKeys(Collect(ns))
  {
    if ns != [] {
      var init, n := ns[..|ns| - 1], ns[|ns| - 1];
      TitleOfGroup(init);
      AddNoteTitles(Collect(init), n);
    }
  }

  /** Every hash a publication lists has the shape of a note hash. */
  ghost predicate HashesShaped(lib: Library) {
    forall k, h :: k in lib.pubHashes && h in lib.pubHashes[k] ==> IsNoteHash(h)
  }

  /** Line 162: the publications list the hashes of their records and nothing else. */
  lemma {:induction false} CollectHashesShaped(ns: seq<Note>)
    requires forall i :: 0 <= i < |ns| ==> IsNoteHash(ns[i].hash)
    ensures HashesShaped(Collect(ns))
  {
    if ns != [] {
      var init, n := ns[..|ns| - 1], ns[|ns| - 1];
      CollectHashesShaped(init);
      var lib := Collect(init);
      var r := AddNote(lib, n);
      forall k, h | k in r.pubHashes && h in r.pubHashes[k] ensures IsNoteHash(h) {
        if k == n.key && k in lib.pubHashes {
          assert h in lib.pubHashes[k] || h == n.hash;
        }
      }
    }
  }

  /** The index of the last record with hash `h`, or -1 when there is none. */
  function LastWithHash(ns: seq<Note>, h: string): (i: int)
    ensures -1 <= i < |ns|
    ensures i >= 0 ==> ns[i].hash == h
    ensures forall j :: i < j < |ns| ==> ns[j].hash != h
  {
    if ns == [] then -1
    else if ns[|ns| - 1].hash == h then |ns| - 1
    else LastWithHash(ns[..|ns| - 1], h)
  }

  /**
   * Lines 177-180: the per-hash tables hold, for each hash, the text,
   * location string, type and date of the LAST record with that hash.
   */
  lemma {:induction false} LastWriterWins(ns: seq<Note>, h: string)
    ensures LastWithHash(ns, h) < 0 ==> h !in Collect(ns).notes
    ensures var lib, i := Collect(ns), LastWithHash(ns, h);
      i >= 0 ==>
        && h in lib.notes && h in lib.locations && h in lib.types && h in lib.dates
        && lib.notes[h] == ns[i].text && lib.locations[h] == ns[i].locStr
        && lib.types[h] == ns[i].noteType && lib.dates[h] == ns[i].date
  {
    if ns != [] {
      var init, n := ns[..|ns| - 1], ns[|ns| - 1];
      assert ns == init + [n];
      CollectSnoc(init, n);
      if n.hash != h {
        LastWriterWins(init, h);
        assert LastWithHash(ns, h) == LastWithHash(init, h);
        if LastWithHash(init, h) >= 0 {
          assert ns[LastWithHash(init, h)] == init[LastWithHash(init, h)];
        }
      }
    }
  }

  lemma {:induction false} ThenNothing(rest: ParseResult)
    ensures Then([], rest) == rest
  {
    if rest.Parsed? {
      assert [] + rest.notes == rest.notes;
    }
  }

  lemma {:induction false} ThenThen(done: seq<Note>, n: Note, rest: ParseResult)
    ensures Then(done, Then([n], rest)) == Then(done + [n], rest)
  {
    if rest.Parsed? {
      assert done + ([n] + rest.notes) == (done + [n]) + rest.notes;
    }
  }

  /** The script's global tables (lines 74-82), updated in place by the parse loop. */
  class Tables {
    var order: seq<string>
    var pubTitle: map<string, string>
    var pubAuthor: map<string, string>
    var pubNotes: map<string, seq<string>>
    var pubHashes: map<string, seq<string>>
    var notes: map<string, string>
    var locations: map<string, string>
    var types: map<string, string>
    var dates: map<string, string>

    function State(): Library
      reads this
    {
      Library(order, pubTitle, pubAuthor, pubNotes, pubHashes, notes, locations, types, dates)
    }

    constructor ()
      ensures State() == Empty
    {
      order, pubTitle, pubAuthor, pubNotes, pubHashes := [], map[], map[], map[], map[];
      notes, locations, types, dates := map[], map[], map[], map[];
    }

    /** Lines 155-162 and 177-180: one more record. */
    method Add(n: Note)
      requires n.key in pubNotes ==> n.key in pubHashes
      modifies this
      ensures State() == AddNote(old(State()), n)
    {
      if n.key !in pubNotes {
        StartGroup(n.key);
      }
      AddToGroup(n);
      AddToHashTables(n);
    }

    /** Lines 155-157. */
    method StartGroup(key: string)
      modifies this
      ensures pubNotes == old(pubNotes)[key := []] && pubHashes == old(pubHashes)[key := []]
      ensures order == old(order) && pubTitle == old(pubTitle) && pubAuthor == old(pubAuthor)
      ensures notes == old(notes) && locations == old(locations) && types == old(types) && dates == old(dates)
    {
      pubNotes, pubHashes := pubNotes[key := []], pubHashes[key := []];
    }

    /** Lines 159-162. */
    method AddToGroup(n: Note)
      requires n.key in pubNotes && n.key in pubHashes
      modifies this
      ensures order == if n.key in old(pubTitle) then old(order) else old(order) + [n.key]
      ensures pubTitle == old(pubTitle)[n.key := n.title] && pubAuthor == old(pubAuthor)[n.key := n.author]
      ensures pubNotes == old(pubNotes)[n.key := old(pubNotes)[n.key] + [n.text]]
      ensures pubHashes == old(pubHashes)[n.key := old(pubHashes)[n.key] + [n.hash]]
      ensures notes == old(notes) && locations == old(locations) && types == old(types) && dates == old(dates)
    {
      var key := n.key;
      // assigning a key `pub_title` does not hold yet appends it to the key order
      order := if key in pubTitle then order else order + [key];
      pubTitle, pubAuthor := pubTitle[key := n.title], pubAuthor[key := n.author];
      pubNotes, pubHashes := pubNotes[key := pubNotes[key] + [n.text]], pubHashes[key := pubHashes[key] + [n.hash]];
    }

    /** Lines 177-180. */
    method AddToHashTables(n: Note)
      modifies this
      ensures notes == old(notes)[n.hash := n.text] && locations == old(locations)[n.hash := n.locStr]
      ensures types == old(types)[n.hash := n.noteType] && dates == old(dates)[n.hash := n.date]
      ensures order == old(order) && pubTitle == old(pubTitle) && pubAuthor == old(pubAuthor)
      ensures pubNotes == old(pubNotes) && pubHashes == old(pubHashes)
    {
      notes, locations := notes[n.hash := n.text], locations[n.hash := n.locStr];
      types, dates := types[n.hash := n.noteType], dates[n.hash := n.date];
    }
  }

  /**
   * Lines 117-182 as the script runs them: a loop over the records, the
   * tables updated in place. A record whose body runs into the end of the
   * file stops the run here, where the script would loop for ever.
   */
  method ParseClippings(env: Env, text: string) returns (r: ParseResult, lib: Library)
    ensures r == ParseLog(env, text)
    ensures r.Parsed? ==> lib == Collect(r.notes)
  {
    var tables := new Tables();
    var records: seq<Note> := [];
    var start := if |text| == 0 then 0 else 1;
    var read := ReadNote(env, text, start);
    ThenNothing(ParseLog(env, text));
    assert ParseLog(env, text) == Then(records, ParseFrom(env, text, start));
    assert tables.State() == Collect(records);
    while read.Record?
      invariant start <= |text| && read == ParseRecord(env, text, start)
      invariant ParseLog(env, text) == Then(records, ParseFrom(env, text, start))
      invariant tables.State() == Collect(records)
      decreases |text| - start
    {
      var n := read.note;
      ParseFromRecord(env, text, start, n, read.next);
      ThenThen(records, n, ParseFrom(env, text, read.next));
      CollectSnoc(records, n);
      tables.Add(n);
      records := records + [n];
      start := read.next;
      read := ReadNote(env, text, start);
    }
    if read.Failed? {
      ParseFromFailed(env, text, start, read.outcome);
      return read.outcome, tables.State();
    }
    ParseLogEnd(env, text, start, records);
    r := Parsed(records);
    lib := tables.State();
  }
}
