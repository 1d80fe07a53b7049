/** Cold storage of one table: records printed one to a line, collected into chunks, each chunk
    encrypted to one line of the snapshot file; and loading, which decrypts and parses the snapshot
    and then replays the write-ahead log. JSON printing and encryption are parameters. */
module Persistence {
  import opened Options
  import opened Sequences
  import opened Text
  import opened Versions
  import opened Stores

  datatype WalEntry = WalEntry(op: string, key: string, value: Option<Version>, timestamp: nat)

  type Record = (string, Version)

  /** The foreign encodings. Encryption takes its nonce as a second argument. */
  datatype Codec = Codec(
    render: Version -> string,
    parse: string -> Option<Version>,
    encrypt: (string, nat) -> string,
    decrypt: string -> Option<string>,
    parseWal: string -> Option<WalEntry>)
  {
    /** Parsing undoes printing and decrypting undoes encrypting; printed JSON is one line that
        begins and ends with a visible character; cipher text is a non-empty word. */
    ghost predicate Sound() {
      && (forall v :: parse(render(v)) == Some(v))
      && (forall v :: render(v) != "" && Trimmed(render(v)) && '\n' !in render(v))
      && (forall p, nonce :: decrypt(encrypt(p, nonce)) == Some(p))
      && (forall p, nonce :: encrypt(p, nonce) != "" && forall c :: c in encrypt(p, nonce) ==> !IsSpace(c))
    }
  }

  // ---------- specification of saving ----------

  function RecordLine(codec: Codec, r: Record): string {
    r.0 + " = " + codec.render(r.1)
  }

  function RecordText(codec: Codec, r: Record): string {
    RecordLine(codec, r) + "\n"
  }

  function TextOf(codec: Codec, rs: seq<Record>): string {
    if rs == [] then "" else TextOf(codec, rs[..|rs| - 1]) + RecordText(codec, rs[|rs| - 1])
  }

  /** The records grouped into full chunks, and those still in the buffer. */
  datatype Grouping = Grouping(full: seq<seq<Record>>, pending: seq<Record>)

  /** One more record joins the buffer; a buffer that satisfies `full` is closed. */
  function Extend(g: Grouping, r: Record, full: seq<Record> -> bool): Grouping {
    var buffer := g.pending + [r];
    if full(buffer) then Grouping(g.full + [buffer], []) else g.(pending := buffer)
  }

  function Group(rs: seq<Record>, full: seq<Record> -> bool): Grouping {
    if rs == [] then Grouping([], []) else Extend(Group(rs[..|rs| - 1], full), rs[|rs| - 1], full)
  }

  /** The text of the buffered records has reached the limit. */
  function Reaches(codec: Codec, limit: nat): seq<Record> -> bool {
    (buffer: seq<Record>) => ByteLength(TextOf(codec, buffer)) >= limit
  }

  /** The groups that are written, in file order. */
  function Chunks(codec: Codec, rs: seq<Record>, limit: nat): seq<seq<Record>> {
    var g := Group(rs, Reaches(codec, limit));
    if g.pending == [] then g.full else g.full + [g.pending]
  }

  /** The snapshot file: chunk `i` is encrypted with the nonce `nonces(i)`. */
  function FileOf(codec: Codec, chunks: seq<seq<Record>>, nonces: nat -> nat): string {
    if chunks == [] then "" else
    var n := |chunks| - 1;
    FileOf(codec, chunks[..n], nonces) + codec.encrypt(TextOf(codec, chunks[n]), nonces(n)) + "\n"
  }

  /** `rs` lists the records of the table, each once, in some order. */
  ghost predicate Lists(rs: seq<Record>, table: Table) {
    && (forall i, j :: 0 <= i < j < |rs| ==> rs[i].0 != rs[j].0)
    && (forall r :: r in rs <==> r.0 in table && table[r.0] == r.1)
  }

  // ---------- specification of loading ----------

  function AfterLine(codec: Codec, table: Table, line: string): Table {
    var i := IndexOf(line, '=');
    if i == |line| then table else
    match codec.parse(Trim(line[i + 1..]))
    case None => table
    case Some(v) => table[Trim(line[..i]) := v]
  }

  function AfterLines(codec: Codec, table: Table, lines: seq<string>): Table {
    if lines == [] then table
    else AfterLine(codec, AfterLines(codec, table, lines[..|lines| - 1]), lines[|lines| - 1])
  }

  /** `None` stands for the process exiting on a chunk that does not decrypt. */
  function AfterChunk(codec: Codec, loaded: Option<Table>, line: string): Option<Table> {
    if loaded.None? || Trim(line) == "" then loaded else
    match codec.decrypt(Trim(line))
    case None => None
    case Some(content) => Some(AfterLines(codec, loaded.value, Lines(content)))
  }

  function AfterChunks(codec: Codec, lines: seq<string>): Option<Table> {
    if lines == [] then Some(map[])
    else AfterChunk(codec, AfterChunks(codec, lines[..|lines| - 1]), lines[|lines| - 1])
  }

  function Loaded(codec: Codec, file: string): Option<Table> {
    AfterChunks(codec, Lines(file))
  }

  function AfterEntry(table: Table, e: WalEntry): Table {
    if e.op == "put" then
      if e.value.Some? then table[e.key := e.value.value] else table
    else if e.op == "delete" then table - {e.key}
    else table
  }

  /** Replay log lines; a line that does not parse is skipped. */
  function Replay(codec: Codec, table: Table, lines: seq<string>): Table {
    if lines == [] then table else
    var t := Replay(codec, table, lines[..|lines| - 1]);
    match codec.parseWal(lines[|lines| - 1])
    case None => t
    case Some(e) => AfterEntry(t, e)
  }

  /** A table folder: either file may be missing. */
  function LoadedTable(codec: Codec, snapshot: Option<string>, wal: Option<string>): Option<Table> {
    var base := if snapshot.Some? then Loaded(codec, snapshot.value) else Some(map[]);
    if base.None? then None
    else if wal.None? then base
    else Some(Replay(codec, base.value, Lines(wal.value)))
  }

  // ---------- the loops ----------

  lemma {:induction false} TextOfAppend(codec: Codec, rs: seq<Record>, r: Record)
    ensures TextOf(codec, rs + [r]) == TextOf(codec, rs) + RecordText(codec, r)
  {
  }

  lemma {:induction false} FileOfAppend(codec: Codec, chunks: seq<seq<Record>>, c: seq<Record>, nonces: nat -> nat)
    ensures FileOf(codec, chunks + [c], nonces) ==
            FileOf(codec, chunks, nonces) + codec.encrypt(TextOf(codec, c), nonces(|chunks|)) + "\n"
  {
  }

  /** Save the records in the order the table's iterator yields them. */
  method SaveTable(codec: Codec, records: seq<Record>, limit: nat, nonces: nat -> nat) returns (file: string)
    ensures file == FileOf(codec, Chunks(codec, records, limit), nonces)
  {
    file := "";
    var buffer := "";
    ghost var g := Grouping([], []);
    var written := 0;
    for i := 0 to |records|
      invariant g == Group(records[..i], Reaches(codec, limit))
      invariant buffer == TextOf(codec, g.pending) && written == |g.full|
      invariant file == FileOf(codec, g.full, nonces)
    {
      assert records[..i + 1][..i] == records[..i];
      TextOfAppend(codec, g.pending, records[i]);
      buffer := buffer + RecordText(codec, records[i]);
      g := g.(pending := g.pending + [records[i]]);
      if ByteLength(buffer) >= limit {
        FileOfAppend(codec, g.full, g.pending, nonces);
        file := file + codec.encrypt(buffer, nonces(written)) + "\n";
        buffer, written := "", written + 1;
        g := Grouping(g.full + [g.pending], []);
      }
    }
    assert records[..|records|] == records;
    TextIsEmptyOnlyOfNothing(codec, g.pending);
    if buffer != "" {
      FileOfAppend(codec, g.full, g.pending, nonces);
      file := file + codec.encrypt(buffer, nonces(written)) + "\n";
    }
  }

  method LoadTable(codec: Codec, snapshot: Option<string>, wal: Option<string>) returns (loaded: Option<Table>)
    ensures loaded == LoadedTable(codec, snapshot, wal)
  {
    loaded := Some(map[]);
    if snapshot.Some? {
      loaded := LoadSnapshot(codec, Lines(snapshot.value));
    }
    if loaded.Some? && wal.Some? {
      var table := ReplayWal(codec, loaded.value, Lines(wal.value));
      loaded := Some(table);
    }
  }

  method LoadSnapshot(codec: Codec, lines: seq<string>) returns (loaded: Option<Table>)
    ensures loaded == AfterChunks(codec, lines)
  {
    loaded := Some(map[]);
    for i := 0 to |lines|
      invariant loaded.Some? && loaded == AfterChunks(codec, lines[..i])
    {
      assert lines[..i + 1][..i] == lines[..i];
      loaded := LoadChunk(codec, loaded.value, lines[i]);
      if loaded.None? {
        FailureIsFinal(codec, lines, i + 1);
        return;
      }
    }
    assert lines[..|lines|] == lines;
  }

  method LoadChunk(codec: Codec, table: Table, line: string) returns (loaded: Option<Table>)
    ensures loaded == AfterChunk(codec, Some(table), line)
  {
    var trimmed := Trim(line);
    if trimmed == "" {
      return Some(table);
    }
    var content := codec.decrypt(trimmed);
    if content.None? {
      return None;
    }
    var t := LoadLines(codec, table, Lines(content.value));
    loaded := Some(t);
  }

  method LoadLines(codec: Codec, table: Table, lines: seq<string>) returns (t: Table)
    ensures t == AfterLines(codec, table, lines)
  {
    t := table;
    for i := 0 to |lines|
      invariant t == AfterLines(codec, table, lines[..i])
    {
      assert lines[..i + 1][..i] == lines[..i];
      t := LoadLine(codec, t, lines[i]);
    }
    assert lines[..|lines|] == lines;
  }

  method LoadLine(codec: Codec, table: Table, line: string) returns (t: Table)
    ensures t == AfterLine(codec, table, line)
  {
    t := table;
    var at := IndexOf(line, '=');
    if at < |line| {
      var value := codec.parse(Trim(line[at + 1..]));
      if value.Some? {
        t := t[Trim(line[..at]) := value.value];
      }
    }
  }

  method ReplayWal(codec: Codec, table: Table, lines: seq<string>) returns (t: Table)
    ensures t == Replay(codec, table, lines)
  {
    t := table;
    for i := 0 to |lines|
      invariant t == Replay(codec, table, lines[..i])
    {
      assert lines[..i + 1][..i] == lines[..i];
      var parsed := codec.parseWal(lines[i]);
      if parsed.Some? {
        var e := parsed.value;
        if e.op == "put" {
          if e.value.Some? {
            t := t[e.key := e.value.value];
          }
        } else if e.op == "delete" {
          t := t - {e.key};
        }
      }
    }
    assert lines[..|lines|] == lines;
  }

  lemma {:induction false} FailureIsFinal(codec: Codec, lines: seq<string>, i: nat)
    requires i <= |lines| && AfterChunks(codec, lines[..i]).None?
    ensures AfterChunks(codec, lines).None?
    decreases |lines|
  {
    if i == |lines| {
      assert lines[..i] == lines;
    } else {
      assert lines[..|lines| - 1][..i] == lines[..i];
      FailureIsFinal(codec, lines[..|lines| - 1], i);
    }
  }

  lemma {:induction false} TextIsEmptyOnlyOfNothing(codec: Codec, rs: seq<Record>)
    ensures TextOf(codec, rs) == "" <==> rs == []
  {
  }

  // ---------- chunk sizes ----------

  /** A closed buffer was not full before its last record. */
  ghost predicate JustFull(c: seq<Record>, full: seq<Record> -> bool) {
    c != [] && full(c) && (|c| > 1 ==> !full(c[..|c| - 1]))
  }

  lemma {:induction false} GroupShape(rs: seq<Record>, full: seq<Record> -> bool)
    ensures var g := Group(rs, full);
      && (forall c :: c in g.full ==> JustFull(c, full) && forall r :: r in c ==> r in rs)
      && (forall r :: r in g.pending ==> r in rs)
      && (g.pending != [] ==> !full(g.pending))
  {
    if rs != [] {
      var front, last := rs[..|rs| - 1], rs[|rs| - 1];
      GroupShape(front, full);
      var buffer := Group(front, full).pending + [last];
      assert buffer[..|buffer| - 1] == Group(front, full).pending;
      assert forall r :: r in buffer ==> r in rs;
    }
  }

  lemma {:induction false} ByteLengthOfOneMore(codec: Codec, c: seq<Record>)
    requires c != []
    ensures ByteLength(TextOf(codec, c)) ==
            ByteLength(TextOf(codec, c[..|c| - 1])) + ByteLength(RecordText(codec, c[|c| - 1]))
  {
    ByteLengthAppend(TextOf(codec, c[..|c| - 1]), RecordText(codec, c[|c| - 1]));
  }

  lemma {:induction false} ChunkSize(codec: Codec, c: seq<Record>, limit: nat, longest: nat)
    requires limit >= 1 && JustFull(c, Reaches(codec, limit))
    requires forall r :: r in c ==> ByteLength(RecordText(codec, r)) <= longest
    ensures limit <= ByteLength(TextOf(codec, c)) < limit + longest
  {
    ByteLengthOfOneMore(codec, c);
    assert |c| == 1 ==> TextOf(codec, c[..0]) == "";
  }

  /** Every chunk but the last reaches the limit, and every chunk is shorter than the limit plus
      the longest record. */
  lemma {:induction false} ChunkSizes(codec: Codec, rs: seq<Record>, limit: nat, longest: nat)
    requires limit >= 1 && forall r :: r in rs ==> ByteLength(RecordText(codec, r)) <= longest
    ensures var cs := Chunks(codec, rs, limit);
      && (forall i :: 0 <= i < |cs| - 1 ==> limit <= ByteLength(TextOf(codec, cs[i])))
      && (forall i :: 0 <= i < |cs| ==> ByteLength(TextOf(codec, cs[i])) < limit + longest)
  {
    var full := Reaches(codec, limit);
    var g, cs := Group(rs, full), Chunks(codec, rs, limit);
    GroupShape(rs, full);
    forall i | 0 <= i < |g.full|
      ensures limit <= ByteLength(TextOf(codec, cs[i])) < limit + longest
    {
      assert cs[i] in g.full;
      ChunkSize(codec, cs[i], limit, longest);
    }
  }

  // ---------- round trip ----------

  /** A key that survives printing: the separator and the line end do not occur in it, and it has
      no space at either end. */
  predicate CleanKey(k: string) {
    '=' !in k && '\n' !in k && Trimmed(k)
  }

  function Flatten(cs: seq<seq<Record>>): seq<Record> {
    if cs == [] then [] else Flatten(cs[..|cs| - 1]) + cs[|cs| - 1]
  }

  /** Insert records one after the other. */
  function InsertAll(table: Table, rs: seq<Record>): Table {
    if rs == [] then table else InsertAll(table, rs[..|rs| - 1])[rs[|rs| - 1].0 := rs[|rs| - 1].1]
  }

  lemma {:induction false} InsertAllAppend(table: Table, a: seq<Record>, b: seq<Record>)
    ensures InsertAll(table, a + b) == InsertAll(InsertAll(table, a), b)
  {
    if b == [] {
      assert a + b == a;
    } else {
      assert (a + b)[..|a + b| - 1] == a + b[..|b| - 1];
      InsertAllAppend(table, a, b[..|b| - 1]);
    }
  }

  lemma {:induction false} InsertAllContents(rs: seq<Record>, k: string)
    requires forall i, j :: 0 <= i < j < |rs| ==> rs[i].0 != rs[j].0
    ensures k in InsertAll(map[], rs) <==> exists v :: (k, v) in rs
    ensures k in InsertAll(map[], rs) ==> (k, InsertAll(map[], rs)[k]) in rs
  {
    if rs != [] {
      InsertAllContents(rs[..|rs| - 1], k);
      assert rs == rs[..|rs| - 1] + [rs[|rs| - 1]];
      assert rs[|rs| - 1] == (rs[|rs| - 1].0, rs[|rs| - 1].1);
    }
  }

  lemma {:induction false} InsertAllGivesTable(rs: seq<Record>, table: Table)
    requires Lists(rs, table)
    ensures InsertAll(map[], rs) == table
  {
    forall k
      ensures k in InsertAll(map[], rs) <==> k in table
      ensures k in table ==> InsertAll(map[], rs)[k] == table[k]
    {
      InsertAllContents(rs, k);
      if k in table { assert (k, table[k]) in rs; }
    }
  }

  lemma {:induction false} FlattenAppend(cs: seq<seq<Record>>, c: seq<Record>)
    ensures Flatten(cs + [c]) == Flatten(cs) + c
  {
  }

  /** The grouping holds the records `rs`, in order. */
  ghost predicate Holds(g: Grouping, rs: seq<Record>) {
    Flatten(g.full) + g.pending == rs
  }

  lemma {:induction false} ExtendHolds(g: Grouping, rs: seq<Record>, r: Record, full: seq<Record> -> bool)
    requires Holds(g, rs)
    ensures Holds(Extend(g, r, full), rs + [r])
  {
    var buffer := g.pending + [r];
    Associative(Flatten(g.full), g.pending, [r]);
    if full(buffer) {
      FlattenAppend(g.full, buffer);
      Associative(Flatten(g.full + [buffer]), [], []);
    }
  }

  lemma {:induction false} GroupHoldsAll(rs: seq<Record>, full: seq<Record> -> bool)
    ensures Holds(Group(rs, full), rs)
  {
    if rs != [] {
      var front, last := rs[..|rs| - 1], rs[|rs| - 1];
      GroupHoldsAll(front, full);
      ExtendHolds(Group(front, full), front, last, full);
      assert front + [last] == rs;
    }
  }

  /** The chunks hold all the records, in order, and none of them is empty. */
  lemma {:induction false} ChunksHoldAll(codec: Codec, rs: seq<Record>, limit: nat)
    ensures Flatten(Chunks(codec, rs, limit)) == rs
    ensures forall c :: c in Chunks(codec, rs, limit) ==> c != []
  {
    var g := Group(rs, Reaches(codec, limit));
    GroupShape(rs, Reaches(codec, limit));
    GroupHoldsAll(rs, Reaches(codec, limit));
    FlattenAppend(g.full, g.pending);
  }

  /** The line as the loader will split it: padded key, separator, padded JSON. */
  lemma {:induction false} LineShape(codec: Codec, r: Record)
    requires codec.Sound() && '=' !in r.0 && '\n' !in r.0
    ensures var line, key, value := RecordLine(codec, r), r.0 + " ", " " + codec.render(r.1);
      && line == key + ['='] + value
      && '\n' !in line && StripReturn(line) == line
      && IndexOf(line, '=') == |key|
  {
    var line, json := RecordLine(codec, r), codec.render(r.1);
    assert Trimmed(json) && json != "";
    assert line[|line| - 1] == json[|json| - 1];
    var key, value := r.0 + " ", " " + json;
    assert line == key + ['='] + value;
    IndexOfAppend(key, '=', value);
  }

  /** A line without stray separators is loaded under its trimmed key. */
  lemma {:induction false} LineLoads(codec: Codec, table: Table, r: Record)
    requires codec.Sound() && '=' !in r.0 && '\n' !in r.0
    ensures AfterLine(codec, table, RecordLine(codec, r)) == table[Trim(r.0 + " ") := r.1]
  {
    LineShape(codec, r);
    var line, key, value := RecordLine(codec, r), r.0 + " ", " " + codec.render(r.1);
    assert line[..|key|] == key && line[|key| + 1..] == value;
    assert Trimmed(codec.render(r.1));
    TrimOfTrimmed(codec.render(r.1));
  }

  lemma {:induction false} LineRoundTrip(codec: Codec, table: Table, r: Record)
    requires codec.Sound() && CleanKey(r.0)
    ensures AfterLine(codec, table, RecordLine(codec, r)) == table[r.0 := r.1]
  {
    LineLoads(codec, table, r);
    TrimOfTrimmed(r.0);
  }

  function RecordLines(codec: Codec, rs: seq<Record>): seq<string> {
    if rs == [] then [] else RecordLines(codec, rs[..|rs| - 1]) + [RecordLine(codec, rs[|rs| - 1])]
  }

  lemma {:induction false} LinesOfText(codec: Codec, rs: seq<Record>, rest: string)
    requires codec.Sound() && forall r :: r in rs ==> CleanKey(r.0)
    ensures Lines(TextOf(codec, rs) + rest) == RecordLines(codec, rs) + Lines(rest)
  {
    if rs == [] {
      assert TextOf(codec, rs) + rest == rest;
    } else {
      var front, last := rs[..|rs| - 1], rs[|rs| - 1];
      var line := RecordLine(codec, last);
      LinesOfText(codec, front, line + "\n" + rest);
      LineShape(codec, last);
      LinesOfAppend(line, rest);
      Regroup(TextOf(codec, front), line, "\n", rest);
    }
  }

  lemma {:induction false} Regroup(a: string, b: string, c: string, d: string)
    ensures a + (b + c) + d == a + b + c + d == a + (b + c + d)
  {
  }

  lemma {:induction false} AfterRecordLines(codec: Codec, table: Table, rs: seq<Record>)
    requires codec.Sound() && forall r :: r in rs ==> CleanKey(r.0)
    ensures AfterLines(codec, table, RecordLines(codec, rs)) == InsertAll(table, rs)
  {
    if rs != [] {
      var lines := RecordLines(codec, rs);
      assert lines[..|lines| - 1] == RecordLines(codec, rs[..|rs| - 1]);
      AfterRecordLines(codec, table, rs[..|rs| - 1]);
      LineRoundTrip(codec, InsertAll(table, rs[..|rs| - 1]), rs[|rs| - 1]);
    }
  }

  /** Loading a chunk inserts its records. */
  lemma {:induction false} ChunkRoundTrip(codec: Codec, table: Table, rs: seq<Record>)
    requires codec.Sound() && forall r :: r in rs ==> CleanKey(r.0)
    ensures AfterLines(codec, table, Lines(TextOf(codec, rs))) == InsertAll(table, rs)
  {
    LinesOfText(codec, rs, "");
    assert TextOf(codec, rs) + "" == TextOf(codec, rs) && Lines("") == [];
    assert RecordLines(codec, rs) + [] == RecordLines(codec, rs);
    AfterRecordLines(codec, table, rs);
  }

  function CipherLines(codec: Codec, chunks: seq<seq<Record>>, nonces: nat -> nat): seq<string> {
    if chunks == [] then [] else
    var n := |chunks| - 1;
    CipherLines(codec, chunks[..n], nonces) + [codec.encrypt(TextOf(codec, chunks[n]), nonces(n))]
  }

  /** Cipher text is read back as the line it was written as. */
  lemma {:induction false} CipherIsOneWord(codec: Codec, p: string, nonce: nat)
    requires codec.Sound()
    ensures var line := codec.encrypt(p, nonce);
      '\n' !in line && StripReturn(line) == line && Trim(line) == line && line != ""
  {
    var line := codec.encrypt(p, nonce);
    assert forall c :: c in line ==> !IsSpace(c);
    TrimOfTrimmed(line);
  }

  lemma {:induction false} LinesOfFile(codec: Codec, chunks: seq<seq<Record>>, nonces: nat -> nat, rest: string)
    requires codec.Sound()
    ensures Lines(FileOf(codec, chunks, nonces) + rest) == CipherLines(codec, chunks, nonces) + Lines(rest)
  {
    if chunks == [] {
      assert FileOf(codec, chunks, nonces) + rest == rest;
    } else {
      var n := |chunks| - 1;
      var line := codec.encrypt(TextOf(codec, chunks[n]), nonces(n));
      CipherIsOneWord(codec, TextOf(codec, chunks[n]), nonces(n));
      LinesOfFile(codec, chunks[..n], nonces, line + "\n" + rest);
      LinesOfAppend(line, rest);
      Regroup(FileOf(codec, chunks[..n], nonces), line, "\n", rest);
    }
  }

  /** What the texts of the chunks parse to, one after the other. */
  function TextsLoaded(codec: Codec, chunks: seq<seq<Record>>): Table {
    if chunks == [] then map[] else
    var n := |chunks| - 1;
    AfterLines(codec, TextsLoaded(codec, chunks[..n]), Lines(TextOf(codec, chunks[n])))
  }

  lemma {:induction false} AfterCipherLines(codec: Codec, chunks: seq<seq<Record>>, nonces: nat -> nat)
    requires codec.Sound()
    ensures AfterChunks(codec, CipherLines(codec, chunks, nonces)) == Some(TextsLoaded(codec, chunks))
  {
    if chunks != [] {
      var n := |chunks| - 1;
      var lines := CipherLines(codec, chunks, nonces);
      assert lines[..|lines| - 1] == CipherLines(codec, chunks[..n], nonces);
      AfterCipherLines(codec, chunks[..n], nonces);
      CipherIsOneWord(codec, TextOf(codec, chunks[n]), nonces(n));
    }
  }

  /** A saved file always decrypts: what is loaded is what the texts of its chunks parse to. */
  lemma {:induction false} FileLoadsItsTexts(codec: Codec, chunks: seq<seq<Record>>, nonces: nat -> nat)
    requires codec.Sound()
    ensures Loaded(codec, FileOf(codec, chunks, nonces)) == Some(TextsLoaded(codec, chunks))
  {
    var file := FileOf(codec, chunks, nonces);
    LinesOfFile(codec, chunks, nonces, "");
    assert file + "" == file && Lines("") == [];
    assert CipherLines(codec, chunks, nonces) + [] == CipherLines(codec, chunks, nonces);
    AfterCipherLines(codec, chunks, nonces);
  }

  lemma {:induction false} CleanTextsLoad(codec: Codec, chunks: seq<seq<Record>>)
    requires codec.Sound() && forall r :: r in Flatten(chunks) ==> CleanKey(r.0)
    ensures TextsLoaded(codec, chunks) == InsertAll(map[], Flatten(chunks))
  {
    if chunks != [] {
      var front, last := chunks[..|chunks| - 1], chunks[|chunks| - 1];
      CleanTextsLoad(codec, front);
      assert forall r :: r in last ==> r in Flatten(chunks);
      ChunkRoundTrip(codec, InsertAll(map[], Flatten(front)), last);
      InsertAllAppend(map[], Flatten(front), last);
    }
  }

  lemma {:induction false} CleanRoundTrip(codec: Codec, table: Table, rs: seq<Record>, limit: nat, nonces: nat -> nat)
    requires codec.Sound() && Lists(rs, table)
    requires forall k :: k in table ==> CleanKey(k)
    ensures Loaded(codec, FileOf(codec, Chunks(codec, rs, limit), nonces)) == Some(table)
  {
    var chunks := Chunks(codec, rs, limit);
    ChunksHoldAll(codec, rs, limit);
    assert forall r :: r in rs ==> CleanKey(r.0);
    FileLoadsItsTexts(codec, chunks, nonces);
    CleanTextsLoad(codec, chunks);
    InsertAllGivesTable(rs, table);
  }

  /** Whatever the file, every key that is loaded is clean. */
  lemma {:induction false} LoadedKeysAreClean(codec: Codec, lines: seq<string>)
    ensures AfterChunks(codec, lines).Some? ==> forall k :: k in AfterChunks(codec, lines).value ==> CleanKey(k)
  {
    if lines != [] {
      var front, line := lines[..|lines| - 1], lines[|lines| - 1];
      LoadedKeysAreClean(codec, front);
      var before, content := AfterChunks(codec, front), codec.decrypt(Trim(line));
      if before.Some? && Trim(line) != "" && content.Some? {
        LinesHaveNoNewline(content.value);
        ParsedKeysAreClean(codec, before.value, Lines(content.value));
      }
    }
  }

  lemma {:induction false} ParsedKeysAreClean(codec: Codec, table: Table, lines: seq<string>)
    requires forall k :: k in table ==> CleanKey(k)
    requires forall l :: l in lines ==> '\n' !in l
    ensures forall k :: k in AfterLines(codec, table, lines) ==> CleanKey(k)
  {
    if lines != [] {
      var front, line := lines[..|lines| - 1], lines[|lines| - 1];
      assert line in lines;
      ParsedKeysAreClean(codec, table, front);
      TrimCuts(line[..IndexOf(line, '=')]);
    }
  }

  /** Saving and loading gives the table back, for any record order, any chunk limit and any
      nonces, exactly when all its keys are clean. */
  lemma {:induction false} RoundTripIffKeysClean(
      codec: Codec, table: Table, rs: seq<Record>, limit: nat, nonces: nat -> nat)
    requires codec.Sound() && Lists(rs, table)
    ensures Loaded(codec, FileOf(codec, Chunks(codec, rs, limit), nonces)) == Some(table) <==>
            forall k :: k in table ==> CleanKey(k)
  {
    if forall k :: k in table ==> CleanKey(k) {
      CleanRoundTrip(codec, table, rs, limit, nonces);
    }
    LoadedKeysAreClean(codec, Lines(FileOf(codec, Chunks(codec, rs, limit), nonces)));
  }

  // ---------- what is written and what is read, line by line ----------

  /** A record is printed as its key, " = ", its JSON and a newline, after those before it. */
  lemma {:induction false} RecordsArePrinted(codec: Codec, rs: seq<Record>, key: string, v: Version)
    ensures TextOf(codec, []) == ""
    ensures TextOf(codec, rs + [(key, v)]) == TextOf(codec, rs) + key + " = " + codec.render(v) + "\n"
  {
    TextOfAppend(codec, rs, (key, v));
  }

  /** The file has one line for each chunk: its whole text, encrypted with a nonce of its own. */
  lemma {:induction false} EveryChunkIsOneLine(codec: Codec, chunks: seq<seq<Record>>, nonces: nat -> nat)
    requires codec.Sound()
    ensures var lines := Lines(FileOf(codec, chunks, nonces));
      |lines| == |chunks| &&
      forall i :: 0 <= i < |chunks| ==> lines[i] == codec.encrypt(TextOf(codec, chunks[i]), nonces(i))
  {
    var file := FileOf(codec, chunks, nonces);
    LinesOfFile(codec, chunks, nonces, "");
    assert file + "" == file && Lines("") == [];
    CipherLineAt(codec, chunks, nonces);
  }

  lemma {:induction false} CipherLineAt(codec: Codec, chunks: seq<seq<Record>>, nonces: nat -> nat)
    ensures var lines := CipherLines(codec, chunks, nonces);
      |lines| == |chunks| &&
      forall i :: 0 <= i < |chunks| ==> lines[i] == codec.encrypt(TextOf(codec, chunks[i]), nonces(i))
  {
    if chunks != [] {
      CipherLineAt(codec, chunks[..|chunks| - 1], nonces);
    }
  }

  /** A line is split at its first '='; both parts are trimmed; what parses is inserted, replacing an
      earlier record of the key, and a line without '=' or whose right part does not parse is skipped. */
  lemma {:induction false} LineIsSplitAtFirst(codec: Codec, table: Table, left: string, right: string)
    requires '=' !in left
    ensures AfterLine(codec, table, left) == table
    ensures codec.parse(Trim(right)) == None ==> AfterLine(codec, table, left + "=" + right) == table
    ensures forall v :: codec.parse(Trim(right)) == Some(v) ==>
              AfterLine(codec, table, left + "=" + right) == table[Trim(left) := v]
  {
    var line := left + "=" + right;
    IndexOfAppend(left, '=', right);
    assert line[..|left|] == left && line[|left| + 1..] == right;
    assert forall j :: 0 <= j < |left| ==> left[j] in left;
  }

  /** Loading goes through the lines of a snapshot in order: a blank line changes nothing, a line that
      decrypts has its lines inserted one after the other, and one that does not fails the load. */
  lemma {:induction false} ChunksAreLoadedInOrder(codec: Codec, lines: seq<string>, line: string)
    ensures AfterChunks(codec, []) == Some(map[])
    ensures Trim(line) == "" ==> AfterChunks(codec, lines + [line]) == AfterChunks(codec, lines)
    ensures forall table, text :: var cipher := Trim(line);
              AfterChunks(codec, lines) == Some(table) && cipher != "" && codec.decrypt(cipher) == Some(text) ==>
              AfterChunks(codec, lines + [line]) == Some(AfterLines(codec, table, Lines(text)))
    ensures Trim(line) != "" && codec.decrypt(Trim(line)) == None ==> AfterChunks(codec, lines + [line]) == None
  {
    assert (lines + [line])[..|lines|] == lines;
  }

  /** A start fails exactly when some line of the snapshot is not blank and does not decrypt; the log
      cannot make it fail. */
  lemma {:induction false} LoadFailsIffChunkDoes(codec: Codec, snapshot: Option<string>, wal: Option<string>)
    ensures LoadedTable(codec, snapshot, wal) == None <==>
      snapshot.Some? && exists line :: line in Lines(snapshot.value) && DoesNotDecrypt(codec, line)
  {
    if snapshot.Some? {
      ChunksFailIff(codec, Lines(snapshot.value));
    }
  }

  predicate DoesNotDecrypt(codec: Codec, line: string) {
    Trim(line) != "" && codec.decrypt(Trim(line)) == None
  }

  lemma {:induction false} ChunksFailIff(codec: Codec, lines: seq<string>)
    ensures AfterChunks(codec, lines) == None <==> exists line :: line in lines && DoesNotDecrypt(codec, line)
  {
    if lines != [] {
      var front, last := lines[..|lines| - 1], lines[|lines| - 1];
      ChunksFailIff(codec, front);
      assert forall line :: line in lines <==> line in front || line == last;
      assert AfterChunks(codec, lines) == None <==> AfterChunks(codec, front) == None || DoesNotDecrypt(codec, last);
      if line :| line in lines && DoesNotDecrypt(codec, line) {
        assert line in front || line == last;
      }
    }
  }

  /** Either file of a table may be missing: without a snapshot the log is replayed over nothing, and
      without a log the snapshot is all there is. */
  lemma {:induction false} MissingFilesAreEmpty(codec: Codec, snapshot: Option<string>, log: string)
    ensures LoadedTable(codec, None, None) == Some(map[])
    ensures LoadedTable(codec, None, Some(log)) == Some(Replay(codec, map[], Lines(log)))
    ensures snapshot.Some? ==> LoadedTable(codec, snapshot, None) == Loaded(codec, snapshot.value)
    ensures forall table :: snapshot.Some? && Loaded(codec, snapshot.value) == Some(table) ==>
              LoadedTable(codec, snapshot, Some(log)) == Some(Replay(codec, table, Lines(log)))
  {
  }

  /** A log entry, after those before it: a put stores its value, a delete removes its key, and a put
      without a value, an unknown operation and a line that does not parse change nothing. */
  lemma {:induction false} LogEntryIsApplied(codec: Codec, table: Table, lines: seq<string>, line: string)
    ensures Replay(codec, table, []) == table
    ensures var t, t' := Replay(codec, table, lines), Replay(codec, table, lines + [line]);
      match codec.parseWal(line)
      case None => t' == t
      case Some(WalEntry(op, key, value, _)) =>
        && (op == "put" && value.Some? ==> t' == t[key := value.value])
        && (op == "delete" ==> t' == map k | k in t && k != key :: t[k])
        && (op == "put" && value.None? ==> t' == t)
        && (op != "put" && op != "delete" ==> t' == t)
  {
    assert (lines + [line])[..|lines|] == lines;
  }

  // ---------- write-ahead log ----------

  /** What a log finally does to a key. */
  datatype Fate = Untouched | Deleted | Stored(v: Version)

  ghost function FateOf(codec: Codec, lines: seq<string>, k: string): Fate {
    if lines == [] then Untouched else
    var before := FateOf(codec, lines[..|lines| - 1], k);
    match codec.parseWal(lines[|lines| - 1])
    case None => before
    case Some(e) =>
      if e.key != k then before
      else if e.op == "put" && e.value.Some? then Stored(e.value.value)
      else if e.op == "delete" then Deleted
      else before
  }

  lemma {:induction false} ReplayFollowsFate(codec: Codec, table: Table, lines: seq<string>, k: string)
    ensures var t := Replay(codec, table, lines);
      match FateOf(codec, lines, k)
      case Untouched => (k in t <==> k in table) && (k in t ==> t[k] == table[k])
      case Deleted => k !in t
      case Stored(v) => k in t && t[k] == v
  {
    if lines != [] {
      ReplayFollowsFate(codec, table, lines[..|lines| - 1], k);
    }
  }

  /** Replaying any log twice is the same as replaying it once. */
  lemma {:induction false} ReplayIsIdempotent(codec: Codec, table: Table, lines: seq<string>)
    ensures Replay(codec, Replay(codec, table, lines), lines) == Replay(codec, table, lines)
  {
    var once := Replay(codec, table, lines);
    var twice := Replay(codec, once, lines);
    forall k
      ensures (k in twice <==> k in once) && (k in once ==> twice[k] == once[k])
    {
      ReplayFollowsFate(codec, table, lines, k);
      ReplayFollowsFate(codec, once, lines, k);
    }
  }

  /** After a complete save the log is empty, and loading gives the saved table exactly when its
      keys are clean. */
  lemma {:induction false} SaveThenLoad(codec: Codec, table: Table, rs: seq<Record>, limit: nat, nonces: nat -> nat)
    requires codec.Sound() && Lists(rs, table)
    ensures LoadedTable(codec, Some(FileOf(codec, Chunks(codec, rs, limit), nonces)), Some("")) == Some(table) <==>
            forall k :: k in table ==> CleanKey(k)
  {
    RoundTripIffKeysClean(codec, table, rs, limit, nonces);
  }

  /** Two tables agree on a key. */
  ghost predicate AgreeOn(a: Table, b: Table, k: string) {
    (k in a <==> k in b) && (k in a ==> a[k] == b[k])
  }

  lemma {:induction false} SameIffAgree(a: Table, b: Table)
    ensures a == b <==> forall k :: AgreeOn(a, b, k)
  {
    if forall k :: AgreeOn(a, b, k) {
      assert forall k :: k in a ==> AgreeOn(a, b, k);
      assert forall k :: k in b ==> AgreeOn(a, b, k);
    }
  }

  /** Replaying a log over any table gives a table that contains its effects exactly when the two
      agree on every key the log leaves untouched. */
  lemma {:induction false} ReplayRepairs(codec: Codec, from: Table, base: Table, lines: seq<string>)
    ensures Replay(codec, from, lines) == Replay(codec, base, lines) <==>
      forall k :: FateOf(codec, lines, k) == Untouched ==> AgreeOn(from, Replay(codec, base, lines), k)
  {
    var t, full := Replay(codec, from, lines), Replay(codec, base, lines);
    forall k
      ensures AgreeOn(t, full, k) <==> (FateOf(codec, lines, k) == Untouched ==> AgreeOn(from, full, k))
    {
      ReplayFollowsFate(codec, from, lines, k);
      ReplayFollowsFate(codec, base, lines, k);
    }
    SameIffAgree(t, full);
  }

  lemma {:induction false} ReplayOverSnapshot(codec: Codec, file: string, base: Table, wal: string)
    requires Loaded(codec, file).Some?
    ensures var full := Replay(codec, base, Lines(wal));
      LoadedTable(codec, Some(file), Some(wal)) == Some(full) <==>
      forall k :: FateOf(codec, Lines(wal), k) == Untouched ==> AgreeOn(Loaded(codec, file).value, full, k)
  {
    ReplayRepairs(codec, Loaded(codec, file).value, base, Lines(wal));
  }

  lemma {:induction false} ReplayOverItsEffects(codec: Codec, file: string, base: Table, wal: string)
    requires Loaded(codec, file) == Some(Replay(codec, base, Lines(wal)))
    ensures LoadedTable(codec, Some(file), Some(wal)) == Loaded(codec, file)
  {
    ReplayIsIdempotent(codec, base, Lines(wal));
  }

  /** If the process stops after writing the snapshot and before truncating the log whose effects
      the snapshot already contains, loading gives the saved table exactly when the snapshot alone
      gives it on every key the log leaves untouched; clean keys are enough for that. */
  lemma {:induction false} UntruncatedLogIsHarmless(
      codec: Codec, base: Table, wal: string, rs: seq<Record>, limit: nat, nonces: nat -> nat)
    requires codec.Sound() && Lists(rs, Replay(codec, base, Lines(wal)))
    ensures var saved, file := Replay(codec, base, Lines(wal)), FileOf(codec, Chunks(codec, rs, limit), nonces);
      && Loaded(codec, file).Some?
      && (LoadedTable(codec, Some(file), Some(wal)) == Some(saved) <==>
          forall k :: FateOf(codec, Lines(wal), k) == Untouched ==> AgreeOn(Loaded(codec, file).value, saved, k))
      && ((forall k :: k in saved ==> CleanKey(k)) ==> LoadedTable(codec, Some(file), Some(wal)) == Some(saved))
  {
    var saved, file := Replay(codec, base, Lines(wal)), FileOf(codec, Chunks(codec, rs, limit), nonces);
    assert Loaded(codec, file).Some? by {
      FileLoadsItsTexts(codec, Chunks(codec, rs, limit), nonces);
    }
    ReplayOverSnapshot(codec, file, base, wal);
    if forall k :: k in saved ==> CleanKey(k) {
      RoundTripIffKeysClean(codec, saved, rs, limit, nonces);
      ReplayOverItsEffects(codec, file, base, wal);
    }
  }

  // ---------- a whole store on disk ----------

  /** The disk of a node after complete saves of its tables: for each table the records that were
      saved, in the order they were written. */
  datatype Disk = Disk(codec: Codec, records: map<string, seq<Record>>, limit: nat, nonces: nat -> nat) {
    /** The encodings are sound and no table was saved with a key twice. */
    ghost predicate Valid() {
      codec.Sound() && forall t :: t in records ==> DistinctKeys(records[t])
    }

    /** What a start reads from the disk. */
    ghost function Restored(): Store
      requires codec.Sound()
    {
      map t | t in records :: RestoredTable(codec, records[t], limit, nonces)
    }

    /** What was saved to the disk. */
    ghost function Saved(): Store {
      map t | t in records :: InsertAll(map[], records[t])
    }

    ghost predicate Clean() {
      forall t :: t in records ==> CleanRecords(records[t])
    }

    /** A start restores under this key only what was saved under it. */
    ghost predicate Faithful(t: string, k: string)
      requires codec.Sound()
    {
      var v := Lookup(Restored(), t, k);
      v.Some? ==> t in records && (k, v.value) in records[t]
    }
  }

  ghost predicate CleanRecords(rs: seq<Record>) {
    forall r :: r in rs ==> CleanKey(r.0)
  }

  ghost predicate DistinctKeys(rs: seq<Record>) {
    forall i, j :: 0 <= i < j < |rs| ==> rs[i].0 != rs[j].0
  }

  ghost function RestoredTable(codec: Codec, rs: seq<Record>, limit: nat, nonces: nat -> nat): Table
    requires codec.Sound()
  {
    FileLoadsItsTexts(codec, Chunks(codec, rs, limit), nonces);
    LoadedTable(codec, Some(FileOf(codec, Chunks(codec, rs, limit), nonces)), Some("")).value
  }

  lemma {:induction false} ListsItsTable(rs: seq<Record>)
    requires DistinctKeys(rs)
    ensures Lists(rs, InsertAll(map[], rs))
  {
    var table := InsertAll(map[], rs);
    forall r: Record
      ensures r in rs <==> r.0 in table && table[r.0] == r.1
    {
      InsertAllContents(rs, r.0);
      assert r == (r.0, r.1);
    }
  }

  lemma {:induction false} TableRestoredIffClean(codec: Codec, rs: seq<Record>, limit: nat, nonces: nat -> nat)
    requires codec.Sound() && DistinctKeys(rs)
    ensures RestoredTable(codec, rs, limit, nonces) == InsertAll(map[], rs) <==> CleanRecords(rs)
  {
    ListsItsTable(rs);
    RestoredIsLoaded(codec, rs, limit, nonces);
    SaveThenLoad(codec, InsertAll(map[], rs), rs, limit, nonces);
    CleanIffKeysClean(rs, InsertAll(map[], rs));
  }

  lemma {:induction false} RestoredIsLoaded(codec: Codec, rs: seq<Record>, limit: nat, nonces: nat -> nat)
    requires codec.Sound()
    ensures LoadedTable(codec, Some(FileOf(codec, Chunks(codec, rs, limit), nonces)), Some("")) ==
            Some(RestoredTable(codec, rs, limit, nonces))
  {
    FileLoadsItsTexts(codec, Chunks(codec, rs, limit), nonces);
  }

  lemma {:induction false} CleanIffKeysClean(rs: seq<Record>, table: Table)
    requires Lists(rs, table)
    ensures CleanRecords(rs) <==> forall k :: k in table ==> CleanKey(k)
  {
    assert forall r :: r in rs ==> r.0 in table;
    assert forall k :: k in table ==> (k, table[k]) in rs;
  }

  /** A start brings back exactly what was saved, each record under its own key, if and only if
      all the saved keys are clean. */
  lemma {:induction false} RestoredIffClean(d: Disk)
    requires d.Valid()
    ensures d.Restored() == d.Saved() <==> d.Clean()
  {
    forall t | t in d.records
      ensures d.Restored()[t] == d.Saved()[t] <==> CleanRecords(d.records[t])
    {
      TableRestoredIffClean(d.codec, d.records[t], d.limit, d.nonces);
    }
    StoresAgree(d.Restored(), d.Saved());
  }

  lemma {:induction false} StoresAgree(a: Store, b: Store)
    requires a.Keys == b.Keys
    ensures a == b <==> forall t :: t in a ==> a[t] == b[t]
  {
  }

  // ---------- what a start restores under one key, whatever the other keys ----------

  /** Parse the texts of the records, one after the other. */
  function RecordsParsed(codec: Codec, table: Table, rs: seq<Record>): Table {
    if rs == [] then table else
    AfterLines(codec, RecordsParsed(codec, table, rs[..|rs| - 1]), Lines(RecordText(codec, rs[|rs| - 1])))
  }

  lemma {:induction false} AfterLinesAppend(codec: Codec, table: Table, a: seq<string>, b: seq<string>)
    ensures AfterLines(codec, table, a + b) == AfterLines(codec, AfterLines(codec, table, a), b)
  {
    if b == [] {
      assert a + b == a;
    } else {
      assert (a + b)[..|a + b| - 1] == a + b[..|b| - 1];
      AfterLinesAppend(codec, table, a, b[..|b| - 1]);
    }
  }

  lemma {:induction false} TextParses(codec: Codec, table: Table, rs: seq<Record>)
    ensures AfterLines(codec, table, Lines(TextOf(codec, rs))) == RecordsParsed(codec, table, rs)
  {
    if rs != [] {
      var front, last := rs[..|rs| - 1], rs[|rs| - 1];
      TextParses(codec, table, front);
      LinesOfTexts(TextOf(codec, front), RecordText(codec, last));
      AfterLinesAppend(codec, table, Lines(TextOf(codec, front)), Lines(RecordText(codec, last)));
    }
  }

  lemma {:induction false} RecordsParsedAppend(codec: Codec, table: Table, a: seq<Record>, b: seq<Record>)
    ensures RecordsParsed(codec, table, a + b) == RecordsParsed(codec, RecordsParsed(codec, table, a), b)
  {
    if b == [] {
      assert a + b == a;
    } else {
      assert (a + b)[..|a + b| - 1] == a + b[..|b| - 1];
      RecordsParsedAppend(codec, table, a, b[..|b| - 1]);
    }
  }

  lemma {:induction false} TextsParse(codec: Codec, chunks: seq<seq<Record>>)
    ensures TextsLoaded(codec, chunks) == RecordsParsed(codec, map[], Flatten(chunks))
  {
    if chunks != [] {
      var front, last := chunks[..|chunks| - 1], chunks[|chunks| - 1];
      TextsParse(codec, front);
      TextParses(codec, TextsLoaded(codec, front), last);
      RecordsParsedAppend(codec, map[], Flatten(front), last);
    }
  }

  /** Whatever the keys, the chunk limit and the nonces, a start restores what the texts of the
      records parse to one by one. */
  lemma {:induction false} RestoredRecordByRecord(codec: Codec, rs: seq<Record>, limit: nat, nonces: nat -> nat)
    requires codec.Sound()
    ensures RestoredTable(codec, rs, limit, nonces) == RecordsParsed(codec, map[], rs)
  {
    FileLoadsItsTexts(codec, Chunks(codec, rs, limit), nonces);
    TextsParse(codec, Chunks(codec, rs, limit));
    ChunksHoldAll(codec, rs, limit);
  }

  /** The line has a separator, and the key `k` in front of it. */
  predicate LineNames(line: string, k: string) {
    IndexOf(line, '=') < |line| && Trim(line[..IndexOf(line, '=')]) == k
  }

  /** Some line of the record's text names the key. */
  ghost predicate Names(codec: Codec, r: Record, k: string) {
    exists line :: line in Lines(RecordText(codec, r)) && LineNames(line, k)
  }

  lemma {:induction false} UnnamedIsKept(codec: Codec, table: Table, lines: seq<string>, k: string)
    requires forall line :: line in lines ==> !LineNames(line, k)
    ensures AgreeOn(AfterLines(codec, table, lines), table, k)
  {
    if lines != [] {
      var front, line := lines[..|lines| - 1], lines[|lines| - 1];
      assert line in lines && !LineNames(line, k);
      UnnamedIsKept(codec, table, front, k);
    }
  }

  lemma {:induction false} UnforgedParses(codec: Codec, rs: seq<Record>, k: string)
    requires codec.Sound() && CleanKey(k)
    requires forall r :: r in rs && r.0 != k ==> !Names(codec, r, k)
    ensures var t := RecordsParsed(codec, map[], rs); k in t ==> (k, t[k]) in rs
  {
    if rs != [] {
      var front, last := rs[..|rs| - 1], rs[|rs| - 1];
      var before, lines := RecordsParsed(codec, map[], front), Lines(RecordText(codec, last));
      UnforgedParses(codec, front, k);
      assert last in rs && forall r :: r in front ==> r in rs;
      if last.0 == k {
        ChunkRoundTrip(codec, before, [last]);
        assert [last][..0] == [] && TextOf(codec, [last]) == RecordText(codec, last);
        assert InsertAll(before, [last]) == before[k := last.1];
      } else {
        forall line | line in lines ensures !LineNames(line, k) {
          assert !Names(codec, last, k);
        }
        UnnamedIsKept(codec, before, lines, k);
      }
    }
  }

  lemma {:induction false} RestoredKeysAreClean(codec: Codec, rs: seq<Record>, limit: nat, nonces: nat -> nat)
    requires codec.Sound()
    ensures forall k :: k in RestoredTable(codec, rs, limit, nonces) ==> CleanKey(k)
  {
    var file := FileOf(codec, Chunks(codec, rs, limit), nonces);
    FileLoadsItsTexts(codec, Chunks(codec, rs, limit), nonces);
    LoadedKeysAreClean(codec, Lines(file));
  }

  /** A start is faithful to a key unless the text of another key's record names it. */
  lemma {:induction false} UnforgedIsFaithful(d: Disk, t: string, k: string)
    requires d.codec.Sound()
    requires t in d.records ==> forall r :: r in d.records[t] && r.0 != k ==> !Names(d.codec, r, k)
    ensures d.Faithful(t, k)
  {
    if Lookup(d.Restored(), t, k).Some? {
      RestoredKeysAreClean(d.codec, d.records[t], d.limit, d.nonces);
      RestoredRecordByRecord(d.codec, d.records[t], d.limit, d.nonces);
      UnforgedParses(d.codec, d.records[t], k);
    }
  }

  /** In particular if the keys saved for the table are clean. */
  lemma {:induction false} CleanIsFaithful(d: Disk, t: string, k: string)
    requires d.codec.Sound() && (t in d.records ==> CleanRecords(d.records[t]))
    ensures d.Faithful(t, k)
  {
    if t in d.records {
      forall r | r in d.records[t] && r.0 != k
        ensures !Names(d.codec, r, k)
      {
        CleanNamesItself(d.codec, r);
      }
      UnforgedIsFaithful(d, t, k);
    }
  }

  lemma {:induction false} CleanNamesItself(codec: Codec, r: Record)
    requires codec.Sound() && CleanKey(r.0)
    ensures forall k :: Names(codec, r, k) ==> k == r.0
  {
    var line, key := RecordLine(codec, r), r.0 + " ";
    LineShape(codec, r);
    LinesOfAppend(line, "");
    assert line + "\n" + "" == RecordText(codec, r) && Lines("") == [];
    assert Lines(RecordText(codec, r)) == [line] && line[..|key|] == key;
    TrimOfTrimmed(r.0);
  }

  // ---------- what unclean keys come back as ----------

  lemma {:induction false} OneChunk(codec: Codec, r: Record, limit: nat)
    ensures Chunks(codec, [r], limit) == [[r]]
  {
    var full := Reaches(codec, limit);
    assert [r][..0] == [];
    assert Group([r], full) == Extend(Grouping([], []), r, full);
  }

  /** A start from a single saved record parses that record's text. */
  lemma {:induction false} OneRecordLoads(codec: Codec, r: Record, limit: nat, nonces: nat -> nat)
    requires codec.Sound()
    ensures RestoredTable(codec, [r], limit, nonces) == AfterLines(codec, map[], Lines(RecordText(codec, r)))
  {
    OneChunk(codec, r, limit);
    FileLoadsItsTexts(codec, [[r]], nonces);
    assert [[r]][..0] == [];
    assert TextOf(codec, [r]) == RecordText(codec, r) by {
      assert [r][..0] == [];
    }
  }

  lemma {:induction false} OneTableRestored(d: Disk, t: string, r: Record)
    requires d.codec.Sound() && d.records == map[t := [r]]
    ensures d.Restored() == map[t := AfterLines(d.codec, map[], Lines(RecordText(d.codec, r)))]
  {
    OneRecordLoads(d.codec, r, d.limit, d.nonces);
  }

  /** A key with a space in front comes back without it. */
  lemma {:induction false} PaddedKeyMoves(codec: Codec, v: Version)
    requires codec.Sound()
    ensures AfterLines(codec, map[], Lines(RecordText(codec, (" k", v)))) == map["k" := v]
  {
    var line := RecordLine(codec, (" k", v));
    LineShape(codec, (" k", v));
    LineLoads(codec, map[], (" k", v));
    LinesOfAppend(line, "");
    assert line + "\n" + "" == line + "\n" && Lines("") == [] && [line][..0] == [];
    TrimOfTrimmed("k");
    assert " k" + " " == " k " && " k "[1..] == "k" + " ";
  }

  /** The key whose first line is a record in the snapshot format. */
  function ForgingKey(codec: Codec, forged: Version): string {
    RecordText(codec, ("x", forged)) + "y"
  }

  /** Such a key comes back as two records, the first of which was never saved. */
  lemma {:induction false} ForgingKeySplits(codec: Codec, forged: Version, v: Version)
    requires codec.Sound()
    ensures AfterLines(codec, map[], Lines(RecordText(codec, (ForgingKey(codec, forged), v)))) ==
            map["x" := forged, "y" := v]
  {
    var first, second := ("x", forged), ("y", v);
    TextOfPair(codec, first, second);
    Regroup(RecordText(codec, first), "y", " = ", codec.render(v));
    assert RecordLine(codec, (ForgingKey(codec, forged), v)) == RecordText(codec, first) + RecordLine(codec, second);
    assert RecordText(codec, (ForgingKey(codec, forged), v)) == TextOf(codec, [first, second]);
    ChunkRoundTrip(codec, map[], [first, second]);
    InsertPair(first, second);
  }

  lemma {:induction false} TextOfPair(codec: Codec, a: Record, b: Record)
    ensures TextOf(codec, [a, b]) == RecordText(codec, a) + RecordText(codec, b)
  {
    TextOfAppend(codec, [], a);
    TextOfAppend(codec, [a], b);
    assert [] + [a] == [a] && [a] + [b] == [a, b];
    assert "" + RecordText(codec, a) == RecordText(codec, a);
  }

  lemma {:induction false} InsertPair(a: Record, b: Record)
    ensures InsertAll(map[], [a, b]) == map[][a.0 := a.1][b.0 := b.1]
  {
    InsertAllAppend(map[], [a], [b]);
    assert [a] + [b] == [a, b] && [a][..0] == [] && [b][..0] == [];
  }
}
