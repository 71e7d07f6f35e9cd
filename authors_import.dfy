/**
  The OpenLibrary authors importer.  Each dump line gives at most one
  record (author id, lower-cased name, normalised name); records are
  grouped by normalised name in arrival order, each group becomes one row
  (its first record supplies the id and name, the ids of the others are
  joined into `alternate_id`), and the rows are inserted in one
  `executemany`, which fails when two rows share the PRIMARY KEY
  `author_id`.

  `normalize_name` has the same body as the works importer's
  `normalize_text` and is modelled by `WorksImport.NormalizeText`.
 */
module AuthorsImport {
  import opened Wrappers
  import opened Unicode
  import opened Text
  import opened Json
  import opened Lists
  import opened WorksImport

  // ---------------------------------------------------------------------
  // One dump line

  /** What one line contributes to the grouping. */
  datatype AuthorRecord = AuthorRecord(authorId: string, name: string, nameNorm: string)

  /** Python `(v or "")` followed by a string method: falsy values give "",
      strings give themselves, anything else raises. */
  function TextOr(v: Json): (r: Option<string>)
    ensures r.None? <==> Truthy(v) && !v.Str?
    ensures r.Some? && r.value != "" ==> v == Str(r.value)
  {
    if !Truthy(v) then Some("") else if v.Str? then Some(v.s) else None
  }

  /** Python `str.lower()`. */
  function Lower(s: string): (r: string)
    ensures |r| == |s|
  {
    MapChars(LowerChar, s)
  }

  /** The body of the `try` block after `json.loads`; `None` when the line
      is skipped, which an exception also does. */
  function ParseAuthorPayload(data: Json): (r: Option<AuthorRecord>)
    ensures r.Some? ==>
      && data.Obj?
      && Get(data.fields, "key", Str("")).Str?
      && Get(data.fields, "name", Str("")).Str?
      && r.value.authorId == RemoveAll(Get(data.fields, "key", Str("")).s, "/authors/")
      && r.value.name == Lower(Trim(Py, Get(data.fields, "name", Str("")).s))
      && r.value.nameNorm == NormalizeText(r.value.name)
    ensures r.Some? ==> r.value.authorId != "" && r.value.name != ""
    ensures !data.Obj? ==> r.None?
  {
    if !data.Obj? then None
    else
      match (TextOr(Get(data.fields, "key", Str(""))), TextOr(Get(data.fields, "name", Str(""))))
      case (Some(key), Some(rawName)) =>
        var authorId := RemoveAll(key, "/authors/");
        var name := Lower(Trim(Py, rawName));
        if authorId == "" || name == "" then None
        else
          assert |key| > 0 && |rawName| > 0;
          Some(AuthorRecord(authorId, name, NormalizeText(name)))
      case _ => None
  }

  /** One line: stripped, split on its first four tabs, the fifth field
      decoded by `decode` (`json.loads`); every failure skips the line. */
  function ParseAuthorLine(decode: string -> Option<Json>, line: string): (r: Option<AuthorRecord>)
    ensures Count(Trim(Py, line), '\t') < 4 ==> r.None?
  {
    var parts := SplitN(Trim(Py, line), '\t', 4);
    if |parts| < 5 then None
    else match decode(parts[4])
      case None => None
      case Some(data) => ParseAuthorPayload(data)
  }

  lemma QuestionMarkNormalizesToEmpty()
    ensures NormalizeText("?") == ""
  {
    assert Prepare("?") == "" by {
      assert MapChars(LowerChar, "?") == "?";
      assert Nfd("?") == "?";
      FilterSingle(NotMark, '?');
      FilterSingle(Kept, '?');
    }
    assert Pieces(Py, "") == [""];
    assert NonEmpty([""]) == [];
  }

  /** A record is kept as soon as its id and stripped name are non-empty,
      even when nothing of the name survives normalisation. */
  lemma EmptyNormalizedNameKept(key: string, rawName: string)
    requires RemoveAll(key, "/authors/") != "" && Lower(Trim(Py, rawName)) != ""
    requires NormalizeText(Lower(Trim(Py, rawName))) == ""
    ensures ParseAuthorPayload(Obj(map["key" := Str(key), "name" := Str(rawName)]))
      == Some(AuthorRecord(RemoveAll(key, "/authors/"), Lower(Trim(Py, rawName)), ""))
  {
    var fields := map["key" := Str(key), "name" := Str(rawName)];
    assert Get(fields, "key", Str("")) == Str(key);
    assert Get(fields, "name", Str("")) == Str(rawName);
    TextOrStr(key);
    TextOrStr(rawName);
  }

  lemma TextOrStr(s: string)
    ensures TextOr(Str(s)) == Some(s)
  {
  }

  /** The name "?" is such a name. */
  lemma QuestionMarkKept()
    ensures Lower(Trim(Py, "?")) == "?"
  {
    assert Trim(Py, "?") == "?";
    assert Lower("?") == "?";
  }

  /** The line parser of a dump whose payloads `decode` reads. */
  function LineParser(decode: string -> Option<Json>): (parse: string -> Option<AuthorRecord>)
    ensures forall line :: parse(line) == ParseAuthorLine(decode, line)
  {
    line => ParseAuthorLine(decode, line)
  }

  /** The records `parse` finds in the lines of a dump, in line order. */
  function Records(parse: string -> Option<AuthorRecord>, lines: seq<string>): seq<AuthorRecord> {
    if lines == [] then []
    else
      Records(parse, lines[..|lines| - 1])
        + match parse(lines[|lines| - 1]) case None => [] case Some(rec) => [rec]
  }

  // ---------------------------------------------------------------------
  // Grouping by normalised name

  /** One entry of a group: `(author_id, name)`. */
  datatype Entry = Entry(authorId: string, name: string)

  function NameKeys(recs: seq<AuthorRecord>): (keys: seq<string>)
    ensures |keys| == |recs|
    ensures forall i :: 0 <= i < |recs| ==> keys[i] == recs[i].nameNorm
  {
    seq(|recs|, i requires 0 <= i < |recs| => recs[i].nameNorm)
  }

  /** The entries of the records filed under `k`, in arrival order. */
  function GroupOf(recs: seq<AuthorRecord>, k: string): (g: seq<Entry>)
    ensures g == [] <==> k !in NameKeys(recs)
    ensures |g| <= |recs|
  {
    if recs == [] then []
    else
      var init, last := recs[..|recs| - 1], recs[|recs| - 1];
      assert NameKeys(recs) == NameKeys(init) + [last.nameNorm];
      GroupOf(init, k) + if last.nameNorm == k then [Entry(last.authorId, last.name)] else []
  }

  /** The first entry of a group is the first record with that name. */
  lemma {:induction false} GroupOfFirst(recs: seq<AuthorRecord>, k: string, i: int)
    requires 0 <= i < |recs| && recs[i].nameNorm == k
    requires forall j :: 0 <= j < i ==> recs[j].nameNorm != k
    ensures GroupOf(recs, k)[0] == Entry(recs[i].authorId, recs[i].name)
    decreases |recs|
  {
    var init := recs[..|recs| - 1];
    assert NameKeys(recs) == NameKeys(init) + [recs[|recs| - 1].nameNorm];
    if i < |recs| - 1 {
      assert init[i] == recs[i];
      GroupOfFirst(init, k, i);
    } else {
      assert k !in NameKeys(init) by {
        forall j | 0 <= j < |init| ensures NameKeys(init)[j] != k {
          assert init[j] == recs[j];
        }
      }
    }
  }

  /** One `authors` row. */
  datatype AuthorRow = AuthorRow(authorId: string, name: string, nameNorm: string, alternateId: string)

  /** The entries' ids, in order. */
  function Ids(entries: seq<Entry>): seq<string> {
    seq(|entries|, i requires 0 <= i < |entries| => entries[i].authorId)
  }

  /** The row of one group: its first entry, and the others' ids joined
      by ','. */
  function RowFor(k: string, group: seq<Entry>): (row: AuthorRow)
    requires group != []
    ensures row.authorId == group[0].authorId && row.name == group[0].name && row.nameNorm == k
    ensures |group| == 1 ==> row.alternateId == ""
    ensures |group| > 1 ==> row.alternateId == Join(Ids(group[1..]), ",")
  {
    AuthorRow(group[0].authorId, group[0].name, k, if |group| > 1 then Join(Ids(group[1..]), ",") else "")
  }

  /** The rows for the given names, in order. */
  function RowsFor(recs: seq<AuthorRecord>, keys: seq<string>): (rows: seq<AuthorRow>)
    requires forall i :: 0 <= i < |keys| ==> keys[i] in NameKeys(recs)
    ensures |rows| == |keys|
    ensures forall i :: 0 <= i < |keys| ==> rows[i] == RowFor(keys[i], GroupOf(recs, keys[i]))
  {
    seq(|keys|, i requires 0 <= i < |keys| => RowFor(keys[i], GroupOf(recs, keys[i])))
  }

  /** The batch `import_authors` inserts: one row per distinct normalised
      name, in the order in which the names first appear. */
  function AuthorRows(recs: seq<AuthorRecord>): (rows: seq<AuthorRow>)
  {
    RowsFor(recs, Dedup(NameKeys(recs)))
  }

  /** Exactly one row per distinct normalised name. */
  lemma OneRowPerName(recs: seq<AuthorRecord>)
    ensures |AuthorRows(recs)| == |Dedup(NameKeys(recs))|
    ensures forall k ::
      (exists i :: 0 <= i < |AuthorRows(recs)| && AuthorRows(recs)[i].nameNorm == k) <==> k in NameKeys(recs)
    ensures forall i, j :: 0 <= i < j < |AuthorRows(recs)| ==> AuthorRows(recs)[i].nameNorm != AuthorRows(recs)[j].nameNorm
  {
    var keys := Dedup(NameKeys(recs));
    var rows := AuthorRows(recs);
    forall k | k in NameKeys(recs)
      ensures exists i :: 0 <= i < |rows| && rows[i].nameNorm == k
    {
      var i :| 0 <= i < |keys| && keys[i] == k;
      assert rows[i].nameNorm == k;
    }
  }

  /** The row of a name comes from the first record with that name. */
  lemma FirstRecordWins(recs: seq<AuthorRecord>, i: int)
    requires 0 <= i < |recs|
    requires forall j :: 0 <= j < i ==> recs[j].nameNorm != recs[i].nameNorm
    ensures exists r ::
      && 0 <= r < |AuthorRows(recs)|
      && AuthorRows(recs)[r] == RowFor(recs[i].nameNorm, GroupOf(recs, recs[i].nameNorm))
      && AuthorRows(recs)[r].authorId == recs[i].authorId
      && AuthorRows(recs)[r].name == recs[i].name
  {
    var k := recs[i].nameNorm;
    var keys := Dedup(NameKeys(recs));
    assert NameKeys(recs)[i] == k;
    assert k in keys;
    var r :| 0 <= r < |keys| && keys[r] == k;
    GroupOfFirst(recs, k, i);
    assert AuthorRows(recs)[r] == RowFor(k, GroupOf(recs, k));
  }

  lemma RepeatedIdsGroup(r: AuthorRecord, s: AuthorRecord)
    requires r == AuthorRecord("A", "x", "x") && s == AuthorRecord("B", "x", "x")
    ensures NameKeys([r, s, s]) == ["x", "x", "x"]
    ensures GroupOf([r, s, s], "x") == [Entry("A", "x"), Entry("B", "x"), Entry("B", "x")]
  {
    assert [r, s, s][..2] == [r, s] && [r, s][..1] == [r] && [r][..0] == [];
    assert GroupOf([r], "x") == [Entry("A", "x")];
    assert GroupOf([r, s], "x") == [Entry("A", "x"), Entry("B", "x")];
  }

  lemma DedupSame(x: string)
    ensures Dedup([x, x, x]) == [x]
  {
    assert [x, x, x][..2] == [x, x] && [x, x][..1] == [x] && [x][..0] == [];
  }

  /** Repeated ids are kept in `alternate_id`. */
  lemma RepeatedIdsKept()
    ensures AuthorRows([AuthorRecord("A", "x", "x"), AuthorRecord("B", "x", "x"), AuthorRecord("B", "x", "x")])
      == [AuthorRow("A", "x", "x", "B,B")]
  {
    var r := AuthorRecord("A", "x", "x");
    var s := AuthorRecord("B", "x", "x");
    RepeatedIdsGroup(r, s);
    DedupSame("x");
    var b := Entry("B", "x");
    var g := GroupOf([r, s, s], "x");
    assert g[1..] == [b, b];
    assert Ids([b, b]) == ["B", "B"];
    assert Join(["B", "B"], ",") == "B" + "," + Join(["B"], ",");
    assert RowFor("x", g) == AuthorRow("A", "x", "x", "B,B");
  }

  // ---------------------------------------------------------------------
  // The bulk insert

  /** The `authors` table, keyed by its PRIMARY KEY `author_id`. */
  type AuthorTable = map<string, AuthorRow>

  /** `executemany` of the INSERT: a row whose id is already present
      breaks the PRIMARY KEY and fails the whole call. */
  function InsertAll(t: AuthorTable, rows: seq<AuthorRow>): (r: Option<AuthorTable>)
    decreases |rows|
  {
    if rows == [] then Some(t)
    else if rows[0].authorId in t then None
    else InsertAll(t[rows[0].authorId := rows[0]], rows[1..])
  }

  /** The rows' ids, as a sequence. */
  function RowIds(rows: seq<AuthorRow>): (ids: seq<string>)
    ensures |ids| == |rows|
    ensures forall i :: 0 <= i < |rows| ==> ids[i] == rows[i].authorId
  {
    seq(|rows|, i requires 0 <= i < |rows| => rows[i].authorId)
  }

  /** The insert succeeds exactly when no two rows share an id and none
      is already present. */
  lemma {:induction false} InsertAllSucceeds(t: AuthorTable, rows: seq<AuthorRow>)
    ensures InsertAll(t, rows).Some? <==>
      Distinct(RowIds(rows)) && forall i :: 0 <= i < |rows| ==> rows[i].authorId !in t
    decreases |rows|
  {
    if rows != [] {
      var t1 := t[rows[0].authorId := rows[0]];
      InsertAllSucceeds(t1, rows[1..]);
      assert forall i :: 0 <= i < |rows| - 1 ==> RowIds(rows[1..])[i] == RowIds(rows)[i + 1];
    }
  }

  /** After a successful insert the old rows are untouched, every new row
      is stored under its id, and nothing else was added. */
  lemma {:induction false} InsertAllContents(t: AuthorTable, rows: seq<AuthorRow>)
    requires InsertAll(t, rows).Some?
    ensures forall id :: id in t ==> id in InsertAll(t, rows).value && InsertAll(t, rows).value[id] == t[id]
    ensures forall i :: 0 <= i < |rows| ==> rows[i].authorId in InsertAll(t, rows).value
    ensures forall i :: 0 <= i < |rows| ==> InsertAll(t, rows).value[rows[i].authorId] == rows[i]
    ensures forall id :: id in InsertAll(t, rows).value ==> id in t || id in RowIds(rows)
    decreases |rows|
  {
    if rows != [] {
      var t1 := t[rows[0].authorId := rows[0]];
      InsertAllContents(t1, rows[1..]);
      InsertAllSucceeds(t1, rows[1..]);
      assert RowIds(rows) == [rows[0].authorId] + RowIds(rows[1..]);
      assert forall i :: 1 <= i < |rows| ==> rows[1..][i - 1] == rows[i];
    }
  }

  /** Two names whose first records carry the same id make the import
      fail. */
  lemma SharedPrimaryIdFails(recs: seq<AuthorRecord>, i: int, j: int)
    requires 0 <= i < j < |AuthorRows(recs)|
    requires AuthorRows(recs)[i].authorId == AuthorRows(recs)[j].authorId
    ensures InsertAll(map[], AuthorRows(recs)).None?
  {
    InsertAllSucceeds(map[], AuthorRows(recs));
    assert RowIds(AuthorRows(recs))[i] == RowIds(AuthorRows(recs))[j];
  }

  /** The id of an author seen under one name and then, first, under
      another is the primary key of both rows: the insert fails. */
  lemma SameIdTwoNamesFails(a: AuthorRecord, b: AuthorRecord)
    requires a.authorId == b.authorId && a.nameNorm != b.nameNorm
    ensures InsertAll(map[], AuthorRows([a, b])) == None
  {
    var recs := [a, b];
    assert recs[..1] == [a] && [a][..0] == [];
    assert NameKeys(recs) == [a.nameNorm, b.nameNorm];
    assert Dedup([a.nameNorm, b.nameNorm]) == [a.nameNorm, b.nameNorm] by {
      assert [a.nameNorm, b.nameNorm][..1] == [a.nameNorm] && [a.nameNorm][..0] == [];
    }
    assert GroupOf(recs, a.nameNorm) == [Entry(a.authorId, a.name)];
    assert GroupOf(recs, b.nameNorm) == [Entry(b.authorId, b.name)];
    SharedPrimaryIdFails(recs, 0, 1);
  }

  // ---------------------------------------------------------------------
  // import_authors

  /** The records of the first `i + 1` lines. */
  lemma RecordsSnoc(parse: string -> Option<AuthorRecord>, lines: seq<string>, i: int)
    requires 0 <= i < |lines|
    ensures Records(parse, lines[..i + 1]) ==
      Records(parse, lines[..i]) + match parse(lines[i]) case None => [] case Some(rec) => [rec]
  {
    assert lines[..i + 1][..i] == lines[..i];
  }

  /** Adding one record to the grouping: its name is appended to the order
      when new, and its entry to its own group only. */
  lemma GroupSnoc(recs: seq<AuthorRecord>, rec: AuthorRecord)
    ensures NameKeys(recs + [rec]) == NameKeys(recs) + [rec.nameNorm]
    ensures Dedup(NameKeys(recs + [rec])) ==
      Dedup(NameKeys(recs)) + if rec.nameNorm in NameKeys(recs) then [] else [rec.nameNorm]
    ensures forall k ::
      GroupOf(recs + [rec], k) == GroupOf(recs, k) + if rec.nameNorm == k then [Entry(rec.authorId, rec.name)] else []
  {
    var all := recs + [rec];
    assert all[..|all| - 1] == recs;
    assert NameKeys(all) == NameKeys(recs) + [rec.nameNorm];
    assert NameKeys(all)[..|NameKeys(all)| - 1] == NameKeys(recs);
  }

  /** The grouping loop's state describes the records read so far: the
      names in order of first appearance, and each name's entries. */
  ghost predicate Grouped(order: seq<string>, byName: map<string, seq<Entry>>, recs: seq<AuthorRecord>) {
    && order == Dedup(NameKeys(recs))
    && (forall k :: k in byName <==> k in NameKeys(recs))
    && (forall k :: k in byName ==> byName[k] == GroupOf(recs, k))
  }

  /** The `defaultdict` append keeps the description up to date. */
  lemma GroupedAdd(order: seq<string>, byName: map<string, seq<Entry>>, recs: seq<AuthorRecord>, rec: AuthorRecord)
    requires Grouped(order, byName, recs)
    ensures Grouped(
      if rec.nameNorm in byName then order else order + [rec.nameNorm],
      byName[rec.nameNorm := (if rec.nameNorm in byName then byName[rec.nameNorm] else []) + [Entry(rec.authorId, rec.name)]],
      recs + [rec])
  {
    GroupSnoc(recs, rec);
  }

  /** Every name in the order has a non-empty group. */
  lemma GroupedKeys(order: seq<string>, byName: map<string, seq<Entry>>, recs: seq<AuthorRecord>)
    requires Grouped(order, byName, recs)
    ensures forall m :: 0 <= m < |order| ==> order[m] in byName && byName[order[m]] != []
  {
    forall m | 0 <= m < |order| ensures order[m] in byName && byName[order[m]] != [] {
      assert order[m] in Dedup(NameKeys(recs));
    }
  }

  /** Building one row per name of the order gives the batch. */
  lemma GroupedRows(order: seq<string>, byName: map<string, seq<Entry>>, recs: seq<AuthorRecord>, rows: seq<AuthorRow>)
    requires Grouped(order, byName, recs)
    requires |rows| == |order|
    requires forall m :: 0 <= m < |order| ==>
      order[m] in byName && byName[order[m]] != [] && rows[m] == RowFor(order[m], byName[order[m]])
    ensures rows == AuthorRows(recs)
  {
  }

  /** `authors_by_name[k].append((author_id, name))` on a `defaultdict`:
      the first record of a name creates its list and its place in the
      order. */
  method AddRecord(order: seq<string>, byName: map<string, seq<Entry>>, rec: AuthorRecord, ghost recs: seq<AuthorRecord>)
    returns (order': seq<string>, byName': map<string, seq<Entry>>)
    requires Grouped(order, byName, recs)
    ensures Grouped(order', byName', recs + [rec])
  {
    var k := rec.nameNorm;
    GroupedAdd(order, byName, recs, rec);
    var group := if k in byName then byName[k] else [];
    order' := order;
    if k !in byName {
      order' := order + [k];
    }
    byName' := byName[k := group + [Entry(rec.authorId, rec.name)]];
  }

  /** The first loop of `import_authors`: every parsed record is appended
      to the list of its normalised name in `byName`, a dict that keeps
      the order in which names were first inserted (`order`). */
  method GroupByName(parse: string -> Option<AuthorRecord>, lines: seq<string>)
    returns (order: seq<string>, byName: map<string, seq<Entry>>)
    ensures Grouped(order, byName, Records(parse, lines))
  {
    ghost var recs: seq<AuthorRecord> := [];
    order, byName := [], map[];
    var i := 0;
    while i < |lines|
      invariant 0 <= i <= |lines|
      invariant recs == Records(parse, lines[..i])
      invariant Grouped(order, byName, recs)
    {
      RecordsSnoc(parse, lines, i);
      var parsed := parse(lines[i]);
      if parsed.Some? {
        order, byName := AddRecord(order, byName, parsed.value, recs);
        recs := recs + [parsed.value];
        assert recs == Records(parse, lines[..i + 1]);
      } else {
        assert recs == Records(parse, lines[..i + 1]);
      }
      i := i + 1;
    }
    assert lines[..|lines|] == lines;
  }

  /** The second loop: one row per name, in order. */
  method BuildBatch(order: seq<string>, byName: map<string, seq<Entry>>) returns (rows: seq<AuthorRow>)
    requires forall m :: 0 <= m < |order| ==> order[m] in byName && byName[order[m]] != []
    ensures |rows| == |order|
    ensures forall m :: 0 <= m < |order| ==> rows[m] == RowFor(order[m], byName[order[m]])
  {
    rows := [];
    var j := 0;
    while j < |order|
      invariant 0 <= j <= |order| && |rows| == j
      invariant forall m :: 0 <= m < j ==> rows[m] == RowFor(order[m], byName[order[m]])
    {
      var entries := byName[order[j]];
      var alternates := if |entries| > 1 then Join(Ids(entries[1..]), ",") else "";
      rows := rows + [AuthorRow(entries[0].authorId, entries[0].name, order[j], alternates)];
      j := j + 1;
    }
  }

  /** `import_authors` on the lines of a dump: group, build the batch,
      insert it; the insert either succeeds with the new table or raises. */
  method ImportAuthors(decode: string -> Option<Json>, lines: seq<string>)
    returns (rows: seq<AuthorRow>, result: Option<AuthorTable>)
    ensures rows == AuthorRows(Records(LineParser(decode), lines))
    ensures result == InsertAll(map[], rows)
  {
    var order, byName := GroupByName(LineParser(decode), lines);
    ghost var recs := Records(LineParser(decode), lines);
    GroupedKeys(order, byName, recs);
    rows := BuildBatch(order, byName);
    GroupedRows(order, byName, recs, rows);
    result := InsertAll(map[], rows);
  }
}
