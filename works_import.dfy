/**
  The OpenLibrary works importer: the title normaliser, the parser of one
  dump line, the upsert that merges a work into the table keyed by
  normalised title, and the batch/commit controller that drives it.

  The SQLite table is a map from `title_normalized` to its row; one batch of
  `executemany` is a left fold of the upsert over the batch, which fails as
  a whole when an insert breaks the UNIQUE constraint on `work_id`.
 */
module WorksImport {
  import opened Wrappers
  import opened Unicode
  import opened Text
  import opened Json

  // ---------------------------------------------------------------------
  // normalize_text

  /** Characters the regular expression `[^a-z0-9\s-]` does not remove. */
  predicate Kept(c: char) {
    IsAsciiLower(c) || IsAsciiDigit(c) || IsSpace(Py, c) || c == '-'
  }

  /** Characters a normalised title may hold. */
  predicate NormChar(c: char) {
    IsAsciiLower(c) || IsAsciiDigit(c) || c == '-' || c == ' '
  }

  /** Lower-case ASCII letters, digits and '-', in words separated by single
      spaces, none at either end. */
  predicate IsNormalized(s: string) {
    All(NormChar, s) && SingleSpaced(Py, s)
  }

  /** Everything `normalize_text` does before collapsing white space: lower
      case, decomposition, marks dropped, disallowed characters dropped. */
  function Prepare(text: string): (r: string)
    ensures All(Kept, r)
  {
    Filter(Kept, Filter(NotMark, Nfd(MapChars(LowerChar, text))))
  }

  function NormalizeText(text: string): (r: string)
    ensures IsNormalized(r)
    ensures text == "" ==> r == ""
  {
    if text == "" then ""
    else
      var t := Prepare(text);
      SqueezeAll(Py, t, Kept, NormChar);
      SqueezeSingleSpaced(Py, t);
      Squeeze(Py, t)
  }

  lemma PrepareAppend(a: string, b: string)
    ensures Prepare(a + b) == Prepare(a) + Prepare(b)
  {
    assert MapChars(LowerChar, a + b) == MapChars(LowerChar, a) + MapChars(LowerChar, b);
    NfdAppend(MapChars(LowerChar, a), MapChars(LowerChar, b));
    FilterAppend(NotMark, Nfd(MapChars(LowerChar, a)), Nfd(MapChars(LowerChar, b)));
    FilterAppend(Kept, Filter(NotMark, Nfd(MapChars(LowerChar, a))), Filter(NotMark, Nfd(MapChars(LowerChar, b))));
  }

  /** A normalised title is left as it is. */
  lemma PrepareNormalized(s: string)
    requires IsNormalized(s)
    ensures Prepare(s) == s
  {
    assert All(IsAscii, s);
    var m := MapChars(LowerChar, s);
    forall i | 0 <= i < |s| ensures m[i] == s[i] {
      assert LowerChar(s[i]) == AsciiLower(s[i]);
    }
    assert m == s;
    assert All(NotMark, s);
    assert All(Kept, s);
  }

  /** Normalising twice is normalising once. */
  lemma NormalizeTextIdempotent(text: string)
    ensures NormalizeText(NormalizeText(text)) == NormalizeText(text)
  {
    var r := NormalizeText(text);
    if r != "" {
      PrepareNormalized(r);
      SqueezeIdempotent(Py, Prepare(text));
    }
  }

  /** Two characters that prepare alike are interchangeable anywhere in a title. */
  lemma {:induction false} NormalizeTextReplace(a: string, c: char, d: char, b: string)
    requires Prepare([c]) == Prepare([d])
    ensures NormalizeText(a + [c] + b) == NormalizeText(a + [d] + b)
  {
    PrepareAppend(a + [c], b);
    PrepareAppend(a, [c]);
    PrepareAppend(a + [d], b);
    PrepareAppend(a, [d]);
  }

  /** Upper case and accents do not matter: an accented Latin-1 letter, in
      either case, normalises like its lower-case base letter. */
  lemma AccentAndCaseInsensitive(a: string, c: char, b: string)
    requires IsLatin1Upper(c) || IsLatin1Lower(c) || IsAsciiUpper(c)
    ensures NormalizeText(a + [c] + b) == NormalizeText(a + [AsciiLower(Decompose(LowerChar(c))[0])] + b)
  {
    var base := AsciiLower(Decompose(LowerChar(c))[0]);
    var l := LowerChar(c);
    var d := Decompose(l);
    assert MapChars(LowerChar, [c]) == [l];
    assert Nfd([l]) == d + [] == d;
    assert MapChars(LowerChar, [base]) == [base];
    assert Nfd([base]) == [base] + [] == [base];
    FilterSingle(NotMark, base);
    FilterSingle(Kept, base);
    assert !IsLatin1Upper(l) && !IsCombiningMark(l);
    assert Prepare([c]) == Filter(Kept, Filter(NotMark, d));
    assert Prepare([base]) == Filter(Kept, Filter(NotMark, [base]));
    if |d| == 2 {
      assert d == [d[0]] + [d[1]];
      FilterAppend(NotMark, [d[0]], [d[1]]);
      FilterSingle(NotMark, d[0]);
      FilterSingle(NotMark, d[1]);
      assert [d[0]] + [] == [d[0]];
      assert base == d[0];
    } else {
      assert d == [l] && base == AsciiLower(l);
      FilterSingle(NotMark, d[0]);
      FilterSingle(Kept, d[0]);
    }
    NormalizeTextReplace(a, c, base, b);
  }

  // ---------------------------------------------------------------------
  // parse_line

  /** What `parse_line` extracts from one dump line. */
  datatype Candidate = Candidate(workId: string, title: string, titleNorm: string, authorId: string)

  /** `parse_line` returns a tuple, returns `None`, or raises (a payload
      that is not an object, a key or title that is not a string, an author
      key that is truthy but not a string); raising ends the import. */
  datatype ParseOutcome = Skip | Item(rec: Candidate) | Crash

  /** A candidate as `parse_line` builds them. */
  predicate WellFormed(rec: Candidate) {
    && rec.workId != ""
    && rec.title != "" && Trim(Py, rec.title) == rec.title
    && rec.titleNorm == NormalizeText(rec.title) && rec.titleNorm != ""
  }

  /** The raw author key of one entry of `authors`: the `key` of its
      `author` object, else its own `key`, or the entry itself when it is a
      string; `Null` stands for Python's `None`. */
  function AuthorKey(entry: Json): (key: Json)
    ensures entry.Str? ==> key == entry
    ensures !entry.Str? && !entry.Obj? ==> key == Null
  {
    match entry
    case Obj(fields) =>
      if "author" in fields && fields["author"].Obj? then Get(fields["author"].fields, "key", Null)
      else Get(fields, "key", Null)
    case Str(_) => entry
    case _ => Null
  }

  datatype AuthorScan = Found(id: string) | NotFound | Fails

  /** The scan of `authors` for the first truthy key; `Fails` when that key
      is not a string. */
  function ScanAuthors(entries: seq<Json>): (r: AuthorScan)
    ensures r.NotFound? <==> forall i :: 0 <= i < |entries| ==> !Truthy(AuthorKey(entries[i]))
    ensures !r.NotFound? ==>
      (exists i :: 0 <= i < |entries| && FirstTruthyKey(entries, i)
        && (r.Fails? <==> !AuthorKey(entries[i]).Str?)
        && (r.Found? ==> r.id == RemoveAll(AuthorKey(entries[i]).s, "/authors/")))
  {
    if entries == [] then NotFound
    else
      var key := AuthorKey(entries[0]);
      if Truthy(key) then
        assert FirstTruthyKey(entries, 0);
        if key.Str? then Found(RemoveAll(key.s, "/authors/")) else Fails
      else
        var r := ScanAuthors(entries[1..]);
        assert forall i :: 1 <= i < |entries| ==> entries[1..][i - 1] == entries[i];
        assert forall i :: 0 <= i < |entries[1..]| && FirstTruthyKey(entries[1..], i) ==> FirstTruthyKey(entries, i + 1);
        r
  }

  /** `entries[i]` is the first entry with a truthy key. */
  predicate FirstTruthyKey(entries: seq<Json>, i: int)
    requires 0 <= i < |entries|
  {
    Truthy(AuthorKey(entries[i])) && forall j :: 0 <= j < i ==> !Truthy(AuthorKey(entries[j]))
  }

  /** The author id of a record: "" unless `authors` is a non-empty list. */
  function AuthorOf(fields: map<string, Json>): AuthorScan {
    var authors := Get(fields, "authors", Null);
    if authors.Arr? then ScanAuthors(authors.items) else NotFound
  }

  /** `parse_line` after `json.loads` succeeded. */
  function ParseRecord(data: Json): (r: ParseOutcome)
    ensures r.Item? ==> WellFormed(r.rec)
    ensures r.Item? ==>
      && data.Obj?
      && Get(data.fields, "key", Str("")).Str?
      && r.rec.workId == RemoveAll(Get(data.fields, "key", Str("")).s, "/works/")
      && Get(data.fields, "title", Str("")).Str?
      && r.rec.title == Trim(Py, Get(data.fields, "title", Str("")).s)
      && r.rec.authorId == (match AuthorOf(data.fields) case Found(a) => a case _ => "")
    // skipped exactly when the id, once `/works/` is removed, or the
    // normalised title is empty (an empty stripped title normalises to "")
    ensures r == Skip <==>
      && data.Obj?
      && Get(data.fields, "key", Str("")).Str?
      && Get(data.fields, "title", Str("")).Str?
      && (|| RemoveAll(Get(data.fields, "key", Str("")).s, "/works/") == ""
          || NormalizeText(Trim(Py, Get(data.fields, "title", Str("")).s)) == "")
    // raises exactly when the payload is not an object, the key or the title
    // is not a string, or the record is otherwise kept and its first truthy
    // author key is not a string
    ensures r == Crash <==>
      || !data.Obj?
      || !Get(data.fields, "key", Str("")).Str?
      || !Get(data.fields, "title", Str("")).Str?
      || (&& RemoveAll(Get(data.fields, "key", Str("")).s, "/works/") != ""
          && NormalizeText(Trim(Py, Get(data.fields, "title", Str("")).s)) != ""
          && AuthorOf(data.fields).Fails?)
  {
    if !data.Obj? then Crash
    else
      var key := Get(data.fields, "key", Str(""));
      var title := Get(data.fields, "title", Str(""));
      if !key.Str? || !title.Str? then Crash
      else
        var workId := RemoveAll(key.s, "/works/");
        var t := Trim(Py, title.s);
        if workId == "" || t == "" then Skip
        else
          var norm := NormalizeText(t);
          if norm == "" then Skip
          else
            assert Trim(Py, t) == t;
            match AuthorOf(data.fields)
            case Fails => Crash
            case NotFound => Item(Candidate(workId, t, norm, ""))
            case Found(a) => Item(Candidate(workId, t, norm, a))
  }

  /** `parse_line`: the line is stripped and split on its first four tabs;
      the fifth field is the JSON payload, which `decode` (`json.loads`)
      may reject. */
  function ParseLine(decode: string -> Option<Json>, line: string): (r: ParseOutcome)
    ensures r.Item? ==> WellFormed(r.rec)
    ensures Count(Trim(Py, line), '\t') < 4 ==> r == Skip
  {
    var parts := SplitN(Trim(Py, line), '\t', 4);
    if |parts| < 5 then Skip
    else match decode(parts[4])
      case None => Skip
      case Some(data) => ParseRecord(data)
  }

  /** The payload is the text after the fourth tab, tabs and all; the
      first four fields play no part. */
  lemma ParseLineFields(decode: string -> Option<Json>, line: string, fields: seq<string>, payload: string)
    requires |fields| == 4 && forall i :: 0 <= i < 4 ==> '\t' !in fields[i]
    requires Trim(Py, line) == Join(fields + [payload], "\t")
    ensures ParseLine(decode, line) == match decode(payload) case None => Skip case Some(data) => ParseRecord(data)
  {
    SplitNJoin(fields, payload, '\t');
  }

  // ---------------------------------------------------------------------
  // The upsert (INSERT_SQL)

  /** One row of the `works` table. */
  datatype Row = Row(workId: string, title: string, titleNorm: string, authorId: string, alternateId: string)

  /** The table, keyed by `title_normalized`. */
  type Table = map<string, Row>

  /** The ids held in a comma-joined `alternate_id`. */
  function AltIds(alt: string): (ids: seq<string>)
    ensures forall i :: 0 <= i < |ids| ==> ',' !in ids[i]
    ensures alt != "" ==> Join(ids, ",") == alt
  {
    if alt == "" then [] else JoinSplitOn(alt, ','); SplitOn(alt, ',')
  }

  /** The `alternate_id` CASE of the conflict branch. */
  function MergeAlternates(row: Row, id: string): string {
    if row.workId == id then row.alternateId
    else if row.alternateId == "" then id
    else if Contains("," + row.alternateId + ",", "," + id + ",") then row.alternateId
    else row.alternateId + "," + id
  }

  /** The `author_id` CASE of the conflict branch. */
  function MergeAuthor(row: Row, authorId: string): (r: string)
    ensures row.authorId != "" ==> r == row.authorId
    ensures row.authorId == "" ==> r == authorId
  {
    if row.authorId == "" && authorId != "" then authorId else row.authorId
  }

  /** The row after `INSERT ... ON CONFLICT(title_normalized) DO UPDATE`
      with `old` the row already stored under the candidate's title. */
  function Merge(stored: Option<Row>, rec: Candidate): (r: Row)
    ensures r.titleNorm == (if stored.Some? then stored.value.titleNorm else rec.titleNorm)
    ensures stored.None? ==> r == Row(rec.workId, rec.title, rec.titleNorm, rec.authorId, "")
    ensures stored.Some? ==> r.workId == stored.value.workId && r.title == stored.value.title
    ensures stored.Some? && stored.value.authorId != "" ==> r.authorId == stored.value.authorId
    ensures stored.Some? && stored.value.authorId == "" ==> r.authorId == rec.authorId
  {
    match stored
    case None => Row(rec.workId, rec.title, rec.titleNorm, rec.authorId, "")
    case Some(row) => row.(alternateId := MergeAlternates(row, rec.workId), authorId := MergeAuthor(row, rec.authorId))
  }

  /** A merged id is appended to the alternates unless it is the row's own
      id or already one of them; the SQL substring test on the
      comma-wrapped list is exact membership for ids without commas. */
  lemma MergeAlternatesIds(row: Row, id: string)
    requires id != "" && ',' !in id
    ensures AltIds(MergeAlternates(row, id))
      == AltIds(row.alternateId) + (if id == row.workId || id in AltIds(row.alternateId) then [] else [id])
  {
    var alt := row.alternateId;
    if row.workId == id {
    } else if alt == "" {
      assert IndexOf(id, ',') == None;
    } else {
      WrappedMember(AltIds(alt), id, ',');
      assert "," + alt + "," == [','] + Join(AltIds(alt), [',']) + [','];
      assert "," + id + "," == [','] + id + [','];
      if id !in AltIds(alt) {
        SplitOnSnoc(alt, id, ',');
      }
    }
  }

  predicate NoDuplicates(ids: seq<string>) {
    forall i, j :: 0 <= i < j < |ids| ==> ids[i] != ids[j]
  }

  /** The row invariant: the alternates are distinct and never the row's own id. */
  predicate RowOk(row: Row) {
    NoDuplicates(AltIds(row.alternateId)) && row.workId !in AltIds(row.alternateId)
  }

  /** Ids are OpenLibrary keys: never empty, never a comma. */
  predicate PlainId(id: string) {
    id != "" && ',' !in id
  }

  lemma MergeKeepsRowOk(stored: Option<Row>, rec: Candidate)
    requires stored.Some? ==> RowOk(stored.value)
    requires PlainId(rec.workId)
    ensures RowOk(Merge(stored, rec))
  {
    if stored.Some? {
      MergeAlternatesIds(stored.value, rec.workId);
    }
  }

  /** The work ids a row records: its own and its alternates. */
  function Ids(row: Row): set<string> {
    {row.workId} + Elems(AltIds(row.alternateId))
  }

  /** Every merge records the incoming id, once. */
  lemma MergeIds(stored: Option<Row>, rec: Candidate)
    requires PlainId(rec.workId)
    ensures Ids(Merge(stored, rec)) == (match stored case None => {} case Some(row) => Ids(row)) + {rec.workId}
  {
    if stored.Some? {
      MergeAlternatesIds(stored.value, rec.workId);
      ElemsSnoc(AltIds(stored.value.alternateId), rec.workId);
    } else {
      assert AltIds("") == [];
    }
  }

  // ---------------------------------------------------------------------
  // The table and flush_batch

  /** `work_id` is UNIQUE: no two rows share it. */
  predicate UniqueWorkIds(t: Table) {
    forall k1, k2 :: k1 in t && k2 in t && k1 != k2 ==> t[k1].workId != t[k2].workId
  }

  /** The table invariant: each row sits under its own normalised title,
      keeps its row invariant, and the work ids are unique. */
  predicate TableOk(t: Table) {
    (forall k :: k in t ==> t[k].titleNorm == k && RowOk(t[k])) && UniqueWorkIds(t)
  }

  /** Some row of `t` already has `id` as its `work_id`. */
  predicate IdTaken(t: Table, id: string) {
    exists k :: k in t && t[k].workId == id
  }

  /** One execution of INSERT_SQL: the conflict on `title_normalized`
      merges; a new title whose `work_id` is taken breaks UNIQUE and fails. */
  function Upsert(t: Table, rec: Candidate): (r: Option<Table>)
    ensures r.None? <==> rec.titleNorm !in t && IdTaken(t, rec.workId)
    ensures r.Some? ==> r.value.Keys == t.Keys + {rec.titleNorm}
    ensures r.Some? ==> forall k :: k in t && k != rec.titleNorm ==> r.value[k] == t[k]
  {
    if rec.titleNorm in t then Some(t[rec.titleNorm := Merge(Some(t[rec.titleNorm]), rec)])
    else if IdTaken(t, rec.workId) then None
    else Some(t[rec.titleNorm := Merge(None, rec)])
  }

  /** `flush_batch`: `executemany` of INSERT_SQL over the batch, in order;
      the first failing insert fails the whole call. */
  function ApplyBatch(t: Table, batch: seq<Candidate>): (r: Option<Table>)
    ensures r.Some? ==> t.Keys <= r.value.Keys
    decreases |batch|
  {
    if batch == [] then Some(t)
    else match Upsert(t, batch[0])
      case None => None
      case Some(t1) => ApplyBatch(t1, batch[1..])
  }

  /** The normalised titles of a sequence of candidates. */
  function Titles(batch: seq<Candidate>): set<string> {
    set i | 0 <= i < |batch| :: batch[i].titleNorm
  }

  lemma TitlesCons(batch: seq<Candidate>)
    requires batch != []
    ensures Titles(batch) == {batch[0].titleNorm} + Titles(batch[1..])
  {
    forall x | x in Titles(batch) ensures x in {batch[0].titleNorm} + Titles(batch[1..]) {
      var i :| 0 <= i < |batch| && batch[i].titleNorm == x;
      if i > 0 { assert batch[1..][i - 1] == batch[i]; }
    }
    forall x | x in Titles(batch[1..]) ensures x in Titles(batch) {
      var i :| 0 <= i < |batch[1..]| && batch[1..][i].titleNorm == x;
      assert batch[i + 1] == batch[1..][i];
    }
  }

  /** Flushing two batches one after the other is flushing their concatenation. */
  lemma {:induction false} ApplyBatchAppend(t: Table, a: seq<Candidate>, b: seq<Candidate>)
    ensures ApplyBatch(t, a + b) == match ApplyBatch(t, a) case None => None case Some(t1) => ApplyBatch(t1, b)
    decreases |a|
  {
    if a == [] {
      assert a + b == b;
    } else {
      assert (a + b)[0] == a[0];
      assert (a + b)[1..] == a[1..] + b;
      match Upsert(t, a[0])
      case None =>
      case Some(t1) => ApplyBatchAppend(t1, a[1..], b);
    }
  }

  /** A flush adds exactly one row per new normalised title. */
  lemma {:induction false} ApplyBatchKeys(t: Table, batch: seq<Candidate>)
    requires ApplyBatch(t, batch).Some?
    ensures ApplyBatch(t, batch).value.Keys == t.Keys + Titles(batch)
    decreases |batch|
  {
    if batch != [] {
      var t1 := Upsert(t, batch[0]).value;
      ApplyBatchKeys(t1, batch[1..]);
      TitlesCons(batch);
    }
  }

  /** The import keeps one row per distinct normalised title. */
  lemma RowCount(batch: seq<Candidate>)
    requires ApplyBatch(map[], batch).Some?
    ensures |ApplyBatch(map[], batch).value| == |Titles(batch)|
  {
    ApplyBatchKeys(map[], batch);
    var t := ApplyBatch(map[], batch).value;
    assert t.Keys == Titles(batch);
    assert |t| == |t.Keys|;
  }

  /** Plain ids keep the table invariant through every upsert. */
  lemma UpsertKeepsTableOk(t: Table, rec: Candidate)
    requires TableOk(t) && PlainId(rec.workId)
    requires Upsert(t, rec).Some?
    ensures TableOk(Upsert(t, rec).value)
  {
    var k := rec.titleNorm;
    var t1 := Upsert(t, rec).value;
    if k in t {
      MergeKeepsRowOk(Some(t[k]), rec);
    } else {
      MergeKeepsRowOk(None, rec);
    }
  }

  lemma {:induction false} ApplyBatchKeepsTableOk(t: Table, batch: seq<Candidate>)
    requires TableOk(t)
    requires forall i :: 0 <= i < |batch| ==> PlainId(batch[i].workId)
    requires ApplyBatch(t, batch).Some?
    ensures TableOk(ApplyBatch(t, batch).value)
    decreases |batch|
  {
    if batch != [] {
      UpsertKeepsTableOk(t, batch[0]);
      ApplyBatchKeepsTableOk(Upsert(t, batch[0]).value, batch[1..]);
    }
  }

  /** A second work under a new title with an id already stored breaks
      UNIQUE(work_id): the batch fails instead of merging. */
  lemma DuplicateWorkIdFails(r1: Candidate, r2: Candidate)
    requires r1.workId == r2.workId && r1.titleNorm != r2.titleNorm
    ensures ApplyBatch(map[], [r1, r2]) == None
  {
    var t1 := map[r1.titleNorm := Merge(None, r1)];
    assert Upsert(map[], r1) == Some(t1);
    assert IdTaken(t1, r2.workId);
    assert [r1, r2][1..] == [r2];
  }

  /** Once a title has a row, its `work_id` and `title` never change. */
  lemma {:induction false} ApplyBatchKeepsIdentity(t: Table, batch: seq<Candidate>, k: string)
    requires k in t
    requires ApplyBatch(t, batch).Some?
    ensures ApplyBatch(t, batch).value[k].workId == t[k].workId
    ensures ApplyBatch(t, batch).value[k].title == t[k].title
    decreases |batch|
  {
    if batch != [] {
      ApplyBatchKeepsIdentity(Upsert(t, batch[0]).value, batch[1..], k);
    }
  }

  /** The first work met for a normalised title becomes its row's
      reference: its id and title are the ones stored. */
  lemma FirstSeenWins(t: Table, batch: seq<Candidate>, i: int)
    requires 0 <= i < |batch| && batch[i].titleNorm !in t
    requires forall j :: 0 <= j < i ==> batch[j].titleNorm != batch[i].titleNorm
    requires ApplyBatch(t, batch).Some?
    ensures batch[i].titleNorm in ApplyBatch(t, batch).value
    ensures ApplyBatch(t, batch).value[batch[i].titleNorm].workId == batch[i].workId
    ensures ApplyBatch(t, batch).value[batch[i].titleNorm].title == batch[i].title
  {
    var k := batch[i].titleNorm;
    ApplyBatchKeys(t, batch);
    assert batch == batch[..i] + batch[i..];
    ApplyBatchAppend(t, batch[..i], batch[i..]);
    var ti := ApplyBatch(t, batch[..i]).value;
    ApplyBatchKeys(t, batch[..i]);
    assert k !in Titles(batch[..i]);
    var ti1 := Upsert(ti, batch[i]).value;
    assert batch[i..][0] == batch[i] && batch[i..][1..] == batch[i + 1..];
    ApplyBatchKeepsIdentity(ti1, batch[i + 1..], k);
  }

  // Re-applying a batch

  /** Merging `rec` into `row` would change nothing: its id is the row's
      own or is found by the SQL test in the alternates, and it brings no
      author the row lacks. */
  predicate Absorbs(row: Row, rec: Candidate) {
    && (row.workId == rec.workId
        || (row.alternateId != "" && Contains("," + row.alternateId + ",", "," + rec.workId + ",")))
    && (rec.authorId == "" || row.authorId != "")
  }

  lemma MergeAbsorbed(row: Row, rec: Candidate)
    requires Absorbs(row, rec)
    ensures Merge(Some(row), rec) == row
  {
  }

  /** A merged row absorbs the record just merged... */
  lemma MergeAbsorbs(stored: Option<Row>, rec: Candidate)
    requires rec.workId != ""
    ensures Absorbs(Merge(stored, rec), rec)
  {
    if stored.Some? {
      var row := stored.value;
      var alt := row.alternateId;
      var needle := "," + rec.workId + ",";
      if row.workId != rec.workId {
        if alt == "" {
          assert needle[..|needle|] == needle;
        } else if !Contains("," + alt + ",", needle) {
          assert "," + (alt + "," + rec.workId) + "," == ("," + alt) + needle;
          assert needle[..|needle|] == needle;
          ContainsAppendLeft("," + alt, needle, needle);
        }
      }
    }
  }

  /** ...and keeps absorbing every record it absorbed before. */
  lemma MergeKeepsAbsorbs(row: Row, rec: Candidate, other: Candidate)
    requires Absorbs(row, other)
    ensures Absorbs(Merge(Some(row), rec), other)
  {
    var alt := row.alternateId;
    var needle := "," + other.workId + ",";
    if row.workId != other.workId && MergeAlternates(row, rec.workId) != alt {
      assert "," + (alt + "," + rec.workId) + "," == ("," + alt + ",") + (rec.workId + ",");
      ContainsAppendRight("," + alt + ",", rec.workId + ",", needle);
    }
  }

  /** Every record of `batch` is absorbed by the row under its title. */
  predicate AllAbsorbed(t: Table, batch: seq<Candidate>) {
    forall i :: 0 <= i < |batch| ==> batch[i].titleNorm in t && Absorbs(t[batch[i].titleNorm], batch[i])
  }

  lemma {:induction false} ApplyBatchAbsorbs(t: Table, done: seq<Candidate>, batch: seq<Candidate>)
    requires AllAbsorbed(t, done)
    requires forall i :: 0 <= i < |batch| ==> batch[i].workId != ""
    requires ApplyBatch(t, batch).Some?
    ensures AllAbsorbed(ApplyBatch(t, batch).value, done + batch)
    decreases |batch|
  {
    if batch == [] {
      assert done + batch == done;
    } else {
      var rec := batch[0];
      var k := rec.titleNorm;
      var t1 := Upsert(t, rec).value;
      forall i | 0 <= i < |done + [rec]|
        ensures (done + [rec])[i].titleNorm in t1 && Absorbs(t1[(done + [rec])[i].titleNorm], (done + [rec])[i])
      {
        var o := (done + [rec])[i];
        if i == |done| {
          MergeAbsorbs(if k in t then Some(t[k]) else None, rec);
        } else if o.titleNorm == k {
          MergeKeepsAbsorbs(t[k], rec, o);
        }
      }
      ApplyBatchAbsorbs(t1, done + [rec], batch[1..]);
      assert done + [rec] + batch[1..] == done + batch;
    }
  }

  lemma {:induction false} AbsorbedUnchanged(t: Table, batch: seq<Candidate>)
    requires AllAbsorbed(t, batch)
    ensures ApplyBatch(t, batch) == Some(t)
    decreases |batch|
  {
    if batch != [] {
      var k := batch[0].titleNorm;
      MergeAbsorbed(t[k], batch[0]);
      assert t[k := t[k]] == t;
      assert AllAbsorbed(t, batch[1..]) by {
        forall i | 0 <= i < |batch[1..]| ensures batch[1..][i] == batch[i + 1] { }
      }
      AbsorbedUnchanged(t, batch[1..]);
    }
  }

  /** Flushing the same batch again leaves the table unchanged. */
  lemma ReapplyBatch(t: Table, batch: seq<Candidate>)
    requires forall i :: 0 <= i < |batch| ==> batch[i].workId != ""
    requires ApplyBatch(t, batch).Some?
    ensures ApplyBatch(ApplyBatch(t, batch).value, batch) == ApplyBatch(t, batch)
  {
    ApplyBatchAbsorbs(t, [], batch);
    assert [] + batch == batch;
    AbsorbedUnchanged(ApplyBatch(t, batch).value, batch);
  }

  // Every id is recorded

  /** The ids of the records of `batch` under title `k`. */
  function IdsFor(batch: seq<Candidate>, k: string): set<string> {
    set i | 0 <= i < |batch| && batch[i].titleNorm == k :: batch[i].workId
  }

  lemma IdsForCons(batch: seq<Candidate>, k: string)
    requires batch != []
    ensures IdsFor(batch, k) == (if batch[0].titleNorm == k then {batch[0].workId} else {}) + IdsFor(batch[1..], k)
  {
    var a, b := IdsFor(batch, k), (if batch[0].titleNorm == k then {batch[0].workId} else {}) + IdsFor(batch[1..], k);
    forall x | x in a ensures x in b {
      var i :| 0 <= i < |batch| && batch[i].titleNorm == k && batch[i].workId == x;
      if i > 0 { assert batch[1..][i - 1] == batch[i]; }
    }
    forall x | x in IdsFor(batch[1..], k) ensures x in a {
      var i :| 0 <= i < |batch[1..]| && batch[1..][i].titleNorm == k && batch[1..][i].workId == x;
      assert batch[i + 1] == batch[1..][i];
    }
  }

  /** After a flush, each row records exactly the ids it had plus the ids
      of every record of the batch with its title: none is lost. */
  lemma {:induction false} ApplyBatchIds(t: Table, batch: seq<Candidate>, k: string)
    requires forall i :: 0 <= i < |batch| ==> PlainId(batch[i].workId)
    requires ApplyBatch(t, batch).Some?
    requires k in ApplyBatch(t, batch).value
    ensures Ids(ApplyBatch(t, batch).value[k]) == (if k in t then Ids(t[k]) else {}) + IdsFor(batch, k)
    decreases |batch|
  {
    if batch == [] {
    } else {
      var rec := batch[0];
      var t1 := Upsert(t, rec).value;
      IdsForCons(batch, k);
      ApplyBatchIds(t1, batch[1..], k);
      if rec.titleNorm == k {
        MergeIds(if k in t then Some(t[k]) else None, rec);
      }
    }
  }

  // ---------------------------------------------------------------------
  // import_works: the batch and commit controller

  /** What the controller does to the database: one `executemany` of
      `rows` rows, or a commit (followed by a WAL checkpoint). */
  datatype Event = Flush(rows: nat) | Commit

  /** Rows flushed since the last commit. */
  function SinceCommit(events: seq<Event>): nat {
    if events == [] then 0
    else match events[|events| - 1]
      case Commit => 0
      case Flush(n) => SinceCommit(events[..|events| - 1]) + n
  }

  /** Rows flushed in all. */
  function FlushedRows(events: seq<Event>): nat {
    if events == [] then 0
    else match events[|events| - 1]
      case Commit => FlushedRows(events[..|events| - 1])
      case Flush(n) => FlushedRows(events[..|events| - 1]) + n
  }

  datatype Status = Running | Failed | Done

  /** What the read loop of `import_works` holds between two lines: the open
      connection's table, the last committed table, the pending batch, the
      two counters, how the run stands and what it has sent so far. */
  datatype Progress = Progress(
    table: Table, committed: Table, batch: seq<Candidate>,
    processed: nat, rowsSinceCommit: nat, status: Status, events: seq<Event>)

  /** `flush_batch`, the counter update and `batch.clear()`. An insert
      that fails raises out of `import_works`: nothing after the last
      commit stays in the database. */
  function FlushStep(p: Progress): Progress {
    if p.batch == [] then p
    else match ApplyBatch(p.table, p.batch)
      case None => p.(status := Failed, table := p.committed)
      case Some(t) =>
        p.(table := t, batch := [], rowsSinceCommit := p.rowsSinceCommit + |p.batch|,
           events := p.events + [Flush(|p.batch|)])
  }

  /** `conn.commit()` and the WAL checkpoint; the counter restarts. */
  function CommitStep(p: Progress): Progress {
    p.(committed := p.table, rowsSinceCommit := 0, events := p.events + [Commit])
  }

  /** The loop body for a line `parse_line` accepted: append, flush a full
      batch, then commit once the interval is reached (a zero interval
      never commits inside the loop). */
  function AcceptStep(p: Progress, rec: Candidate, batchSize: int, commitInterval: int): Progress {
    var appended := p.(batch := p.batch + [rec], processed := p.processed + 1);
    var flushed := if |appended.batch| >= batchSize then FlushStep(appended) else appended;
    if flushed.status == Running && commitInterval != 0 && flushed.rowsSinceCommit >= commitInterval
    then CommitStep(flushed)
    else flushed
  }

  /** The whole loop body for one line. */
  function FeedStep(p: Progress, outcome: ParseOutcome, batchSize: int, commitInterval: int): Progress {
    match outcome
    case Skip => p
    case Crash => p.(status := Failed, table := p.committed)
    case Item(rec) => AcceptStep(p, rec, batchSize, commitInterval)
  }

  /** After the read loop: the trailing batch is flushed, then the final commit. */
  function FinishStep(p: Progress): Progress {
    var flushed := if p.batch != [] then FlushStep(p) else p;
    if flushed.status == Running then CommitStep(flushed).(status := Done) else flushed
  }

  /** The candidates a parse outcome contributes. */
  function Fed(outcome: ParseOutcome): seq<Candidate> {
    if outcome.Item? then [outcome.rec] else []
  }

  /** The flushed prefix of the feed is in the connection's table, the
      batch holds the rest, and the committed table is the feed up to the
      last commit. */
  ghost predicate Replays(p: Progress, initial: Table, fed: seq<Candidate>) {
    && p.processed == |fed|
    && |p.batch| + p.rowsSinceCommit <= |fed|
    && p.batch == fed[|fed| - |p.batch|..]
    && ApplyBatch(initial, fed[..|fed| - |p.batch|]) == Some(p.table)
    && ApplyBatch(initial, fed[..|fed| - |p.batch| - p.rowsSinceCommit]) == Some(p.committed)
  }

  /** The commit log agrees with the counter: the rows flushed since the
      last commit are the counter, the rows flushed in all the flushed
      prefix of the feed. */
  ghost predicate LogAgrees(p: Progress, fed: seq<Candidate>) {
    && SinceCommit(p.events) == p.rowsSinceCommit
    && FlushedRows(p.events) + |p.batch| == |fed|
  }

  /** What the loop keeps between two lines, given the table it started
      from and the candidates fed so far: while running, the feed replays
      and the batch and the counter stay below their bounds; a failed run
      is back at its last commit; a finished run has committed the whole
      feed. */
  ghost predicate Inv(p: Progress, initial: Table, fed: seq<Candidate>, batchSize: int, commitInterval: int) {
    && p.processed == |fed|
    && (p.status == Running ==>
        && Replays(p, initial, fed) && LogAgrees(p, fed)
        && (p.batch == [] || |p.batch| < batchSize)
        && (commitInterval > 0 ==> p.rowsSinceCommit < commitInterval)
        && (commitInterval < 0 ==> p.rowsSinceCommit == 0))
    && (p.status == Failed ==> p.table == p.committed)
    && (p.status == Done ==>
        && p.batch == [] && p.table == p.committed
        && ApplyBatch(initial, fed) == Some(p.table))
  }

  lemma FlushedRowsSnoc(events: seq<Event>, e: Event)
    ensures FlushedRows(events + [e]) == FlushedRows(events) + (if e.Flush? then e.rows else 0)
    ensures SinceCommit(events + [e]) == (if e.Flush? then SinceCommit(events) + e.rows else 0)
  {
    assert (events + [e])[..|events|] == events;
  }

  /** Flushing the batch on top of the flushed prefix replays the whole feed. */
  lemma FlushReplays(initial: Table, fed: seq<Candidate>, n: nat, table: Table)
    requires n <= |fed| && ApplyBatch(initial, fed[..n]) == Some(table)
    ensures ApplyBatch(table, fed[n..]) == ApplyBatch(initial, fed)
  {
    assert fed == fed[..n] + fed[n..];
    ApplyBatchAppend(initial, fed[..n], fed[n..]);
  }

  /** A flush that fails on a prefix of the feed fails on the whole feed. */
  lemma FailurePersists(initial: Table, a: seq<Candidate>, b: seq<Candidate>)
    requires ApplyBatch(initial, a).None?
    ensures ApplyBatch(initial, a + b).None?
  {
    ApplyBatchAppend(initial, a, b);
  }

  /** Appending a parsed line to the batch keeps the feed replaying. */
  lemma AppendReplays(p: Progress, rec: Candidate, initial: Table, fed: seq<Candidate>)
    requires Replays(p, initial, fed)
    ensures Replays(p.(batch := p.batch + [rec], processed := p.processed + 1), initial, fed + [rec])
  {
    var fed' := fed + [rec];
    var b := p.batch + [rec];
    assert fed'[..|fed'| - |b|] == fed[..|fed| - |p.batch|];
    assert fed'[..|fed'| - |b| - p.rowsSinceCommit] == fed[..|fed| - |p.batch| - p.rowsSinceCommit];
    assert fed'[|fed'| - |b|..] == b;
  }

  /** A flush of a non-empty batch fails exactly when the whole feed no
      longer replays, and then falls back to the committed table. */
  lemma FlushFails(p: Progress, initial: Table, fed: seq<Candidate>)
    requires Replays(p, initial, fed) && p.status == Running && p.batch != []
    ensures FlushStep(p).status != Done
    ensures FlushStep(p).status == Failed <==> ApplyBatch(initial, fed).None?
    ensures FlushStep(p).status == Failed ==> FlushStep(p).table == FlushStep(p).committed == p.committed
  {
    FlushReplays(initial, fed, |fed| - |p.batch|, p.table);
  }

  /** On success the batch moves into the table, the counter grows by its
      length and the log records it. */
  lemma FlushSucceeds(p: Progress, initial: Table, fed: seq<Candidate>)
    requires Replays(p, initial, fed) && p.status == Running && p.batch != []
    requires ApplyBatch(initial, fed).Some?
    ensures FlushStep(p) == Flushed(p, ApplyBatch(initial, fed).value)
  {
    FlushReplays(initial, fed, |fed| - |p.batch|, p.table);
  }

  /** The state after a flush that succeeded with table `t`. */
  function Flushed(p: Progress, t: Table): Progress {
    p.(table := t, batch := [], rowsSinceCommit := p.rowsSinceCommit + |p.batch|,
       events := p.events + [Flush(|p.batch|)])
  }

  /** ...and the whole feed then replays. */
  lemma FlushedReplays(p: Progress, initial: Table, fed: seq<Candidate>)
    requires Replays(p, initial, fed) && ApplyBatch(initial, fed).Some?
    ensures Replays(Flushed(p, ApplyBatch(initial, fed).value), initial, fed)
  {
    assert fed[..|fed|] == fed;
  }

  /** ...and the log records the flush. */
  lemma FlushedLog(p: Progress, t: Table, fed: seq<Candidate>)
    requires LogAgrees(p, fed)
    ensures LogAgrees(Flushed(p, t), fed)
  {
    FlushedRowsSnoc(p.events, Flush(|p.batch|));
  }

  /** A commit makes the connection's table the committed one and keeps the
      feed replaying. */
  lemma CommitKeeps(p: Progress, initial: Table, fed: seq<Candidate>)
    requires Replays(p, initial, fed) && LogAgrees(p, fed)
    ensures var q := CommitStep(p);
      && Replays(q, initial, fed) && LogAgrees(q, fed) && q.rowsSinceCommit == 0 && q.committed == q.table
  {
    FlushedRowsSnoc(p.events, Commit);
  }

  /** `AcceptStep` case by case. */
  lemma AcceptUnfolds(p: Progress, rec: Candidate, batchSize: int, commitInterval: int)
    ensures var a := p.(batch := p.batch + [rec], processed := p.processed + 1);
      var f := if |a.batch| >= batchSize then FlushStep(a) else a;
      AcceptStep(p, rec, batchSize, commitInterval)
        == if f.status == Running && commitInterval != 0 && f.rowsSinceCommit >= commitInterval then CommitStep(f) else f
  {
  }

  /** A line that leaves the batch below its size is appended, and
      committed at once when the interval is negative. */
  lemma AcceptNoFlush(p: Progress, rec: Candidate, initial: Table, fed: seq<Candidate>, batchSize: int, commitInterval: int)
    requires Inv(p, initial, fed, batchSize, commitInterval) && p.status == Running
    requires |p.batch| + 1 < batchSize
    ensures Inv(AcceptStep(p, rec, batchSize, commitInterval), initial, fed + [rec], batchSize, commitInterval)
    ensures AcceptStep(p, rec, batchSize, commitInterval).status == Running
  {
    var a := p.(batch := p.batch + [rec], processed := p.processed + 1);
    AppendReplays(p, rec, initial, fed);
    AcceptUnfolds(p, rec, batchSize, commitInterval);
    if commitInterval != 0 && a.rowsSinceCommit >= commitInterval {
      CommitKeeps(a, initial, fed + [rec]);
    }
  }

  /** A line that fills the batch flushes it; when the whole feed no
      longer replays the run fails, back at its last commit. */
  lemma AcceptFlushFails(p: Progress, rec: Candidate, initial: Table, fed: seq<Candidate>, batchSize: int, commitInterval: int)
    requires Inv(p, initial, fed, batchSize, commitInterval) && p.status == Running
    requires |p.batch| + 1 >= batchSize && ApplyBatch(initial, fed + [rec]).None?
    ensures AcceptStep(p, rec, batchSize, commitInterval)
      == p.(batch := p.batch + [rec], processed := p.processed + 1, status := Failed, table := p.committed)
  {
    var a := p.(batch := p.batch + [rec], processed := p.processed + 1);
    AppendReplays(p, rec, initial, fed);
    FlushFails(a, initial, fed + [rec]);
  }

  /** ...and otherwise the feed replays in full, with a commit once the
      interval is reached. */
  lemma AcceptFlushSucceeds(p: Progress, rec: Candidate, initial: Table, fed: seq<Candidate>, batchSize: int, commitInterval: int)
    requires Inv(p, initial, fed, batchSize, commitInterval) && p.status == Running
    requires |p.batch| + 1 >= batchSize && ApplyBatch(initial, fed + [rec]).Some?
    ensures Inv(AcceptStep(p, rec, batchSize, commitInterval), initial, fed + [rec], batchSize, commitInterval)
    ensures AcceptStep(p, rec, batchSize, commitInterval).status == Running
  {
    var a := p.(batch := p.batch + [rec], processed := p.processed + 1);
    AppendReplays(p, rec, initial, fed);
    FlushSucceeds(a, initial, fed + [rec]);
    FlushedReplays(a, initial, fed + [rec]);
    FlushedLog(a, ApplyBatch(initial, fed + [rec]).value, fed + [rec]);
    var f := FlushStep(a);
    AcceptUnfolds(p, rec, batchSize, commitInterval);
    if commitInterval != 0 && f.rowsSinceCommit >= commitInterval {
      CommitKeeps(f, initial, fed + [rec]);
    }
  }

  /** Whether a parsed line makes the run fail: exactly when its flush is
      due and the whole feed no longer replays. */
  lemma AcceptFails(p: Progress, rec: Candidate, initial: Table, fed: seq<Candidate>, batchSize: int, commitInterval: int)
    requires Inv(p, initial, fed, batchSize, commitInterval) && p.status == Running
    ensures var q := AcceptStep(p, rec, batchSize, commitInterval);
      && q.status != Done
      && (q.status == Failed <==> |p.batch| + 1 >= batchSize && ApplyBatch(initial, fed + [rec]).None?)
  {
    if |p.batch| + 1 < batchSize {
      AcceptNoFlush(p, rec, initial, fed, batchSize, commitInterval);
    } else if ApplyBatch(initial, fed + [rec]).None? {
      AcceptFlushFails(p, rec, initial, fed, batchSize, commitInterval);
    } else {
      AcceptFlushSucceeds(p, rec, initial, fed, batchSize, commitInterval);
    }
  }

  /** The whole loop body keeps the invariant; a line `parse_line` rejects
      changes nothing, and one that raises fails the run. */
  lemma FeedKeeps(p: Progress, outcome: ParseOutcome, initial: Table, fed: seq<Candidate>, batchSize: int, commitInterval: int)
    requires Inv(p, initial, fed, batchSize, commitInterval) && p.status == Running
    ensures Inv(FeedStep(p, outcome, batchSize, commitInterval), initial, fed + Fed(outcome), batchSize, commitInterval)
  {
    match outcome
    case Skip => assert fed + Fed(outcome) == fed;
    case Crash => assert fed + Fed(outcome) == fed;
    case Item(rec) =>
      if |p.batch| + 1 < batchSize {
        AcceptNoFlush(p, rec, initial, fed, batchSize, commitInterval);
      } else if ApplyBatch(initial, fed + [rec]).None? {
        AcceptFlushFails(p, rec, initial, fed, batchSize, commitInterval);
      } else {
        AcceptFlushSucceeds(p, rec, initial, fed, batchSize, commitInterval);
      }
  }

  /** After the loop: the run ends done exactly when the whole feed
      replays, with everything committed; the trailing batch is flushed
      once and the final commit closes the log. */
  lemma FinishKeeps(p: Progress, initial: Table, fed: seq<Candidate>, batchSize: int, commitInterval: int)
    requires Inv(p, initial, fed, batchSize, commitInterval) && p.status == Running
    ensures var q := FinishStep(p);
      && Inv(q, initial, fed, batchSize, commitInterval)
      && q.status != Running
      && (q.status == Done <==> ApplyBatch(initial, fed).Some?)
      && (q.status == Done ==>
          && q.events == p.events + (if p.batch == [] then [] else [Flush(|p.batch|)]) + [Commit])
  {
    if p.batch != [] {
      FlushFails(p, initial, fed);
      if ApplyBatch(initial, fed).Some? {
        FlushSucceeds(p, initial, fed);
        FlushedReplays(p, initial, fed);
        FlushedLog(p, ApplyBatch(initial, fed).value, fed);
        CommitKeeps(FlushStep(p), initial, fed);
        assert fed[..|fed|] == fed;
      }
    } else {
      CommitKeeps(p, initial, fed);
      assert fed[..|fed|] == fed;
    }
  }

  /** The state of `import_works` while it reads the dump. The fields are
      the loop's: the connection's table and its last committed state, the
      pending batch, the two counters, the commit log and how the run
      stands; `initial` and `fed` record what the proofs need. */
  class Importer {
    const batchSize: int
    const commitInterval: int
    const decode: string -> Option<Json>
    var table: Table
    var committed: Table
    var batch: seq<Candidate>
    var processed: nat
    var rowsSinceCommit: nat
    var status: Status
    var events: seq<Event>
    ghost const initial: Table
    ghost var fed: seq<Candidate>

    function Snapshot(): Progress
      reads this
    {
      Progress(table, committed, batch, processed, rowsSinceCommit, status, events)
    }

    ghost predicate Valid()
      reads this
    {
      Inv(Snapshot(), initial, fed, batchSize, commitInterval)
    }

    /** The connection opened on `existing`; `--force` drops the table first. */
    constructor (existing: Table, force: bool, batchSize: int, commitInterval: int, decode: string -> Option<Json>)
      ensures Valid() && status == Running
      ensures initial == (if force then map[] else existing) && fed == []
      ensures Snapshot() == Progress(initial, initial, [], 0, 0, Running, [])
      ensures this.batchSize == batchSize && this.commitInterval == commitInterval && this.decode == decode
    {
      this.batchSize := batchSize;
      this.commitInterval := commitInterval;
      this.decode := decode;
      initial := if force then map[] else existing;
      table := if force then map[] else existing;
      committed := if force then map[] else existing;
      batch := [];
      processed := 0;
      rowsSinceCommit := 0;
      status := Running;
      events := [];
      fed := [];
      new;
      StartInv(existing, force, batchSize, commitInterval);
      assert Snapshot() == Start(existing, force);
    }

    /** `flush_batch` on the pending rows, the counter update and `batch.clear()`. */
    method FlushPending()
      requires batch != []
      modifies this
      ensures Snapshot() == FlushStep(old(Snapshot())) && fed == old(fed)
    {
      var r := ApplyBatch(table, batch);
      match r
      case None =>
        status := Failed;
        table := committed;
      case Some(t) =>
        table := t;
        rowsSinceCommit := rowsSinceCommit + |batch|;
        events := events + [Flush(|batch|)];
        batch := [];
    }

    /** `conn.commit()`, the checkpoint, and the counter reset. */
    method CommitNow()
      modifies this
      ensures Snapshot() == CommitStep(old(Snapshot())) && fed == old(fed)
    {
      committed := table;
      rowsSinceCommit := 0;
      events := events + [Commit];
    }

    /** One line of the dump through the body of the read loop. */
    method Feed(line: string)
      requires Valid() && status == Running
      modifies this
      ensures Snapshot() == FeedStep(old(Snapshot()), ParseLine(decode, line), batchSize, commitInterval)
      ensures fed == old(fed) + Fed(ParseLine(decode, line))
      ensures Valid()
    {
      var outcome := ParseLine(decode, line);
      FeedKeeps(Snapshot(), outcome, initial, fed, batchSize, commitInterval);
      match outcome
      case Skip =>
      case Crash =>
        status := Failed;
        table := committed;
      case Item(rec) =>
        Accept(rec);
    }

    /** The loop body for a line `parse_line` accepted: `batch.append`,
        `processed += 1`, the flush of a full batch and the commit once the
        interval is reached. */
    method Accept(rec: Candidate)
      modifies this
      ensures Snapshot() == AcceptStep(old(Snapshot()), rec, batchSize, commitInterval)
      ensures fed == old(fed) + [rec]
    {
      batch := batch + [rec];
      processed := processed + 1;
      fed := fed + [rec];
      if |batch| >= batchSize {
        FlushPending();
      }
      if status == Running && commitInterval != 0 && rowsSinceCommit >= commitInterval {
        CommitNow();
      }
    }

    /** After the read loop: flush the trailing batch, then the final commit. */
    method Finish()
      requires Valid() && status == Running
      modifies this
      ensures Snapshot() == FinishStep(old(Snapshot())) && fed == old(fed)
      ensures Valid()
    {
      FinishKeeps(Snapshot(), initial, fed, batchSize, commitInterval);
      if batch != [] {
        FlushPending();
      }
      if status == Running {
        CommitNow();
        status := Done;
      }
    }
  }

  /** The candidates the parsed lines contribute, in order. */
  function Items(os: seq<ParseOutcome>): seq<Candidate> {
    if os == [] then [] else Fed(os[0]) + Items(os[1..])
  }

  /** The read loop: lines are fed while the run goes on; the first failure
      raises out of it. */
  function RunLines(p: Progress, os: seq<ParseOutcome>, batchSize: int, commitInterval: int): Progress
    decreases |os|
  {
    if os == [] || p.status != Running then p
    else RunLines(FeedStep(p, os[0], batchSize, commitInterval), os[1..], batchSize, commitInterval)
  }

  /** The state `import_works` starts its loop in: the table as the schema
      step left it (emptied by `--force`), nothing pending. */
  function Start(existing: Table, force: bool): Progress {
    Progress(if force then map[] else existing, if force then map[] else existing, [], 0, 0, Running, [])
  }

  /** A fresh run satisfies the controller invariant. */
  lemma StartInv(existing: Table, force: bool, batchSize: int, commitInterval: int)
    ensures Inv(Start(existing, force), if force then map[] else existing, [], batchSize, commitInterval)
  {
    var p, initial := Start(existing, force), if force then map[] else existing;
    var none: seq<Candidate> := [];
    assert none[..0] == none && none[0..] == none;
    assert ApplyBatch(initial, none) == Some(initial);
    assert Replays(p, initial, none);
    assert LogAgrees(p, none);
  }

  /** `import_works` after the schema step: the read loop, then, when it
      went through, the trailing flush and the final commit. The dump is
      given by what `parse_line` makes of each of its lines. */
  function ImportRun(existing: Table, force: bool, os: seq<ParseOutcome>, batchSize: int, commitInterval: int): Progress
  {
    var q := RunLines(Start(existing, force), os, batchSize, commitInterval);
    if q.status == Running then FinishStep(q) else q
  }

  /** The read loop keeps the invariant: a run still going at the end of
      the dump met no line that raises, and its feed replays. */
  lemma {:induction false} RunLinesKeeps(p: Progress, initial: Table, fed: seq<Candidate>, os: seq<ParseOutcome>,
                                         batchSize: int, commitInterval: int)
    requires Inv(p, initial, fed, batchSize, commitInterval) && p.status == Running
    requires RunLines(p, os, batchSize, commitInterval).status == Running
    ensures Crash !in os
    ensures Inv(RunLines(p, os, batchSize, commitInterval), initial, fed + Items(os), batchSize, commitInterval)
    decreases |os|
  {
    if os == [] {
      assert fed + Items(os) == fed;
    } else {
      FeedKeeps(p, os[0], initial, fed, batchSize, commitInterval);
      assert fed + Items(os) == (fed + Fed(os[0])) + Items(os[1..]);
      assert os == [os[0]] + os[1..];
      RunLinesKeeps(FeedStep(p, os[0], batchSize, commitInterval), initial, fed + Fed(os[0]), os[1..], batchSize, commitInterval);
    }
  }

  /** A run that failed in the read loop met a line that raises, or its
      feed so far no longer replays, and then neither does the whole
      feed; the loop never ends a run done. */
  lemma {:induction false} RunLinesFails(p: Progress, initial: Table, fed: seq<Candidate>, os: seq<ParseOutcome>,
                                         batchSize: int, commitInterval: int)
    requires Inv(p, initial, fed, batchSize, commitInterval) && p.status == Running
    ensures RunLines(p, os, batchSize, commitInterval).status != Done
    ensures RunLines(p, os, batchSize, commitInterval).status == Failed ==>
      Crash in os || ApplyBatch(initial, fed + Items(os)).None?
    decreases |os|
  {
    if os != [] {
      var p1 := FeedStep(p, os[0], batchSize, commitInterval);
      assert RunLines(p, os, batchSize, commitInterval) == RunLines(p1, os[1..], batchSize, commitInterval);
      assert fed + Items(os) == (fed + Fed(os[0])) + Items(os[1..]);
      match os[0]
      case Skip =>
        RunLinesFails(p, initial, fed, os[1..], batchSize, commitInterval);
        assert fed + Fed(os[0]) == fed;
        if Crash in os[1..] {
          var i :| 0 <= i < |os[1..]| && os[1..][i] == Crash;
          assert os[i + 1] == Crash;
        }
      case Crash =>
        assert os[0] in os;
      case Item(rec) =>
        AcceptFails(p, rec, initial, fed, batchSize, commitInterval);
        if p1.status == Running {
          FeedKeeps(p, os[0], initial, fed, batchSize, commitInterval);
          RunLinesFails(p1, initial, fed + [rec], os[1..], batchSize, commitInterval);
          if Crash in os[1..] {
            var i :| 0 <= i < |os[1..]| && os[1..][i] == Crash;
            assert os[i + 1] == Crash;
          }
        } else {
          FailurePersists(initial, fed + [rec], Items(os[1..]));
        }
    }
  }

  /** The outcome of `import_works` over a dump: it ends done exactly when
      no line makes `parse_line` raise and every insert succeeds, and then
      the committed table is the replay of every parsed line, in order;
      on a fresh table it holds one row per distinct normalised title. */
  lemma ImportOutcome(existing: Table, force: bool, os: seq<ParseOutcome>, batchSize: int, commitInterval: int)
    ensures var q := ImportRun(existing, force, os, batchSize, commitInterval);
      var initial := if force then map[] else existing;
      && q.status != Running
      && (q.status == Done <==> Crash !in os && ApplyBatch(initial, Items(os)).Some?)
      && (q.status == Done ==> Some(q.table) == ApplyBatch(initial, Items(os)) && q.committed == q.table)
      && (q.status == Done && force ==> |q.table| == |Titles(Items(os))|)
  {
    var initial := if force then map[] else existing;
    var p := Start(existing, force);
    var none: seq<Candidate> := [];
    StartInv(existing, force, batchSize, commitInterval);
    RunLinesFails(p, initial, none, os, batchSize, commitInterval);
    assert none + Items(os) == Items(os);
    var q := RunLines(p, os, batchSize, commitInterval);
    if q.status == Running {
      RunLinesKeeps(p, initial, none, os, batchSize, commitInterval);
      FinishKeeps(q, initial, Items(os), batchSize, commitInterval);
      if FinishStep(q).status == Done && force {
        RowCount(Items(os));
      }
    }
  }
}
