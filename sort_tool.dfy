/**
  The string and selection helpers of the `sort` tool, which files raw
  e-books under "Last, First/Title" directories: its own `normalize_text`,
  the brace matcher that pulls a JSON object out of a language model's
  answer, the prompt builder with its 40000-byte cap, the author hints
  de-duplicated by normalised name, the comma list of alternate author ids,
  the work lookup by title and author, and the resume filter over the state
  log.
 */
module SortTool {
  import opened Wrappers
  import opened Unicode
  import opened Text
  import opened Lists
  import opened Json

  // ---------------------------------------------------------------------
  // normalize_text

  /** Characters the loop of `normalize_text` pushes: ASCII letters and
      digits, white space and '-'. */
  predicate Kept(c: char) {
    IsAsciiAlnum(c) || IsSpace(Rust, c) || c == '-'
  }

  /** Characters a normalised text may hold. */
  predicate NormChar(c: char) {
    IsAsciiLower(c) || IsAsciiDigit(c) || c == '-' || c == ' '
  }

  /** Lower-case ASCII letters, digits and '-', in words separated by single
      spaces, none at either end. */
  predicate IsNormalized(s: string) {
    All(NormChar, s) && SingleSpaced(Rust, s)
  }

  /** Characters that are not upper case, in ASCII or in Latin-1. */
  predicate Lowered(c: char) {
    !IsAsciiUpper(c) && !IsLatin1Upper(c)
  }

  predicate NotAsciiUpper(c: char) {
    !IsAsciiUpper(c)
  }

  predicate KeptLower(c: char) {
    Kept(c) && !IsAsciiUpper(c)
  }

  /** `s.to_lowercase().nfd()`: the characters the loop visits. */
  function Decomposed(s: string): (d: string)
    ensures All(NotAsciiUpper, d)
  {
    var l := MapChars(LowerChar, s);
    assert All(Lowered, l);
    NfdLowered(l);
    Nfd(l)
  }

  lemma {:induction false} NfdLowered(s: string)
    requires All(Lowered, s)
    ensures All(NotAsciiUpper, Nfd(s))
  {
    if s != [] {
      assert All(Lowered, s[1..]) by {
        assert forall i :: 0 <= i < |s[1..]| ==> s[1..][i] == s[i + 1];
      }
      NfdLowered(s[1..]);
      var d, t := Decompose(s[0]), Nfd(s[1..]);
      assert All(NotAsciiUpper, d);
      assert All(NotAsciiUpper, d + t) by {
        forall i | 0 <= i < |d + t| ensures NotAsciiUpper((d + t)[i]) {
          if i >= |d| { assert (d + t)[i] == t[i - |d|]; }
        }
      }
    }
  }

  /** What the loop pushes for the characters `d`: combining marks skipped,
      then only the kept characters. */
  function Pushed(d: string): (r: string)
    ensures All(Kept, r)
    ensures All(NotAsciiUpper, d) ==> All(KeptLower, r)
  {
    Filter(Kept, Filter(NotMark, d))
  }

  lemma PushedAppend(a: string, b: string)
    ensures Pushed(a + b) == Pushed(a) + Pushed(b)
  {
    FilterAppend(NotMark, a, b);
    FilterAppend(Kept, Filter(NotMark, a), Filter(NotMark, b));
  }

  /** The result `normalize_text` computes: the pushed characters with white
      space collapsed to single spaces and trimmed. */
  function NormalForm(s: string): (r: string)
    ensures IsNormalized(r)
    ensures s == "" ==> r == ""
  {
    var t := Pushed(Decomposed(s));
    SqueezeAll(Rust, t, KeptLower, NormChar);
    SqueezeSingleSpaced(Rust, t);
    assert s == "" ==> t == "" && Words(Rust, t) == [];
    Squeeze(Rust, t)
  }

  lemma PushedSnoc(d: string, i: nat)
    requires i < |d|
    ensures Pushed(d[..i + 1]) == Pushed(d[..i]) + if !IsCombiningMark(d[i]) && Kept(d[i]) then [d[i]] else []
  {
    assert d[..i + 1] == d[..i] + [d[i]];
    PushedAppend(d[..i], [d[i]]);
    FilterSingle(NotMark, d[i]);
    FilterSingle(Kept, d[i]);
  }

  /** `normalize_text`: one pass over the decomposed lower-case text,
      pushing the characters that are neither marks nor dropped. */
  method NormalizeText(s: string) returns (r: string)
    ensures r == NormalForm(s)
  {
    var d := Decomposed(s);
    var out := "";
    for i := 0 to |d|
      invariant out == Pushed(d[..i])
    {
      var ch := d[i];
      PushedSnoc(d, i);
      if !IsCombiningMark(ch) {
        if Kept(ch) {
          out := out + [ch];
        }
      }
    }
    assert d[..|d|] == d;
    r := Squeeze(Rust, out);
  }

  /** A normalised text goes through the loop unchanged. */
  lemma PushedNormalized(s: string)
    requires IsNormalized(s)
    ensures Pushed(Decomposed(s)) == s
  {
    assert All(IsAscii, s);
    var m := MapChars(LowerChar, s);
    forall i | 0 <= i < |s| ensures m[i] == s[i] {
      assert LowerChar(s[i]) == AsciiLower(s[i]);
    }
    assert m == s;
    assert All(NotMark, s);
    assert All(Kept, s);
  }

  /** Normalising twice is normalising once. */
  lemma NormalFormIdempotent(s: string)
    ensures NormalForm(NormalForm(s)) == NormalForm(s)
  {
    var r := NormalForm(s);
    PushedNormalized(r);
    SqueezeIdempotent(Rust, Pushed(Decomposed(s)));
  }

  lemma DecomposedAroundSpace(a: string, b: string)
    ensures Decomposed(a + " " + b) == Decomposed(a) + " " + Decomposed(b)
  {
    var la, lb := MapChars(LowerChar, a), MapChars(LowerChar, b);
    MapCharsAppend(LowerChar, a + " ", b);
    MapCharsAppend(LowerChar, a, " ");
    assert MapChars(LowerChar, " ") == " ";
    NfdAppend(la + " ", lb);
    NfdAppend(la, " ");
    assert Nfd(" ") == " ";
  }

  lemma PreparedAroundSpace(a: string, b: string)
    ensures Pushed(Decomposed(a + " " + b)) == Pushed(Decomposed(a)) + " " + Pushed(Decomposed(b))
  {
    var da, db := Decomposed(a), Decomposed(b);
    DecomposedAroundSpace(a, b);
    PushedAppend(da + " ", db);
    PushedAppend(da, " ");
    FilterSingle(NotMark, ' ');
    FilterSingle(Kept, ' ');
    assert Pushed(" ") == " ";
  }

  /** `normalize_name`: the first and last names normalised together.  The
      result is each part normalised, joined by one space when both have
      words left. */
  function NormalizeName(first: string, last: string): (r: string)
    ensures r ==
      if NormalForm(first) == "" then NormalForm(last)
      else if NormalForm(last) == "" then NormalForm(first)
      else NormalForm(first) + " " + NormalForm(last)
  {
    PreparedAroundSpace(first, last);
    SqueezeAroundSpace(Rust, Pushed(Decomposed(first)), Pushed(Decomposed(last)));
    NormalForm(first + " " + last)
  }

  // ---------------------------------------------------------------------
  // format_author_dir

  /** `format_author_dir`: "Last, First".  When the last name holds no comma,
      the directory name splits back at its first comma. */
  function FormatAuthorDir(first: string, last: string): (r: string)
    ensures |r| == |last| + 2 + |first|
    ensures ',' !in last ==>
      && IndexOf(r, ',') == Some(|last|)
      && r[..|last|] == last
      && r[|last| + 1] == ' '
      && r[|last| + 2..] == first
  {
    var r := last + ", " + first;
    assert ',' !in last ==> IndexOf(r, ',') == Some(|last|) by {
      if ',' !in last {
        IndexOfAfter(last, ',', " " + first);
        assert r == last + [','] + (" " + first);
      }
    }
    r
  }

  // ---------------------------------------------------------------------
  // extract_first_json_object

  /** Every non-empty prefix of `s[st..e]` opens more braces than it closes. */
  predicate StaysOpen(s: string, st: nat, e: nat)
    requires st <= e <= |s|
  {
    forall k :: st < k <= e ==> Count(s[st..k], '{') > Count(s[st..k], '}')
  }

  /** `s[st..e]` is the first JSON object of `s` as a brace matcher sees it:
      it starts at the first '{', closes as many braces as it opens, and is
      open throughout before its end. */
  predicate FirstObject(s: string, st: nat, e: nat) {
    && IndexOf(s, '{') == Some(st)
    && st < e <= |s|
    && Count(s[st..e], '{') == Count(s[st..e], '}')
    && StaysOpen(s, st, e - 1)
  }

  lemma CountSnoc(s: string, st: nat, i: nat, c: char)
    requires st <= i < |s|
    ensures Count(s[st..i + 1], c) == Count(s[st..i], c) + (if s[i] == c then 1 else 0)
  {
    SliceSnoc(s, st, i);
    CountAppend(s[st..i], [s[i]], c);
    assert [s[i]][1..] == [];
  }

  lemma IndexOfFirst(s: string, c: char, i: nat)
    requires i < |s| && s[i] == c && c !in s[..i]
    ensures IndexOf(s, c) == Some(i)
  {
    assert s == s[..i] + [c] + s[i + 1..];
    IndexOfAfter(s[..i], c, s[i + 1..]);
  }

  /** `extract_first_json_object`: a depth counter over the text, which
      starts a span at a '{' seen at depth 0 and returns it when the depth
      comes back to 0.  A '}' at depth 0 leaves the depth at 0.  Braces
      are ASCII, so counting characters and counting bytes agree. */
  method ExtractFirstJsonObject(s: string) returns (r: Option<string>)
    ensures r.Some? ==> exists st: nat, e: nat :: FirstObject(s, st, e) && r.value == s[st..e]
    ensures r.None? ==> IndexOf(s, '{').None? || StaysOpen(s, IndexOf(s, '{').value, |s|)
  {
    var depth: nat := 0;
    var start: Option<nat> := None;
    for i := 0 to |s|
      invariant start.None? ==> depth == 0 && '{' !in s[..i]
      invariant start.Some? ==>
        && IndexOf(s, '{') == Some(start.value) && start.value < i
        && depth == Count(s[start.value..i], '{') - Count(s[start.value..i], '}')
        && depth > 0 && StaysOpen(s, start.value, i)
    {
      var b := s[i];
      TakeSnoc(s, i);
      if start.Some? {
        CountSnoc(s, start.value, i, '{');
        CountSnoc(s, start.value, i, '}');
      }
      if b == '{' {
        if depth == 0 {
          IndexOfFirst(s, '{', i);
          start := Some(i);
          CountSnoc(s, i, i, '{');
          CountSnoc(s, i, i, '}');
        }
        depth := depth + 1;
      } else if b == '}' {
        if depth > 0 {
          depth := depth - 1;
        }
        if depth == 0 {
          if start.Some? {
            assert FirstObject(s, start.value, i + 1);
            return Some(s[start.value..i + 1]);
          }
        }
      }
    }
    return None;
  }

  /** The span ends with the '}' that balances it. */
  lemma FirstObjectCloses(s: string, st: nat, e: nat)
    requires FirstObject(s, st, e)
    ensures s[st] == '{' && s[e - 1] == '}'
  {
    if e - 1 > st {
      assert Count(s[st..e - 1], '{') > Count(s[st..e - 1], '}');
    } else {
      assert s[st..e - 1] == [];
    }
    CountSnoc(s, st, e - 1, '{');
    CountSnoc(s, st, e - 1, '}');
  }

  /** The span is the shortest balanced one: no two spans qualify. */
  lemma FirstObjectUnique(s: string, st: nat, e: nat, e': nat)
    requires FirstObject(s, st, e) && FirstObject(s, st, e')
    ensures e == e'
  {
  }

  /** When the depth never returns to 0 there is no object to return. */
  lemma NeverClosedNoObject(s: string, st: nat, e: nat)
    requires IndexOf(s, '{') == Some(st) && StaysOpen(s, st, |s|)
    ensures !FirstObject(s, st, e)
  {
    assert st < e <= |s| ==> Count(s[st..e], '{') > Count(s[st..e], '}');
  }

  lemma {:induction false} IndexOfShift(a: string, s: string, c: char)
    requires c !in a
    ensures IndexOf(a + s, c) == match IndexOf(s, c) case None => None case Some(i) => Some(|a| + i)
  {
    if a != [] {
      assert (a + s)[1..] == a[1..] + s;
      IndexOfShift(a[1..], s, c);
    } else {
      assert a + s == s;
    }
  }

  /** Text before the first '{' (a stray '}' included) is passed over: the
      object is found at the same place in what follows. */
  lemma StrayCloseIgnored(a: string, s: string, st: nat, e: nat)
    requires '{' !in a
    requires FirstObject(s, st, e)
    ensures FirstObject(a + s, |a| + st, |a| + e)
  {
    IndexOfShift(a, s, '{');
    var t, st' := a + s, |a| + st;
    SliceOfAppend(a, s, st, e);
    forall k | st' < k <= |a| + e - 1
      ensures Count(t[st'..k], '{') > Count(t[st'..k], '}')
    {
      SliceOfAppend(a, s, st, k - |a|);
    }
  }

  // ---------------------------------------------------------------------
  // build_llm_prompt

  /** The instructions put before the author hints (French, as in the tool). */
  const PromptHeader: string :=
    "Tu dois r\U{00E9}pondre STRICTEMENT en JSON avec les cl\U{00E9}s: "
    + "{\"title\", \"title_normalized\", \"author_firstname\", \"author_lastname\"}.\n"
    + "Si possible, choisis l'auteur parmi la liste partielle suivante.\n"
    + "Auteurs connus (partiel): "

  /** No hint is added once the prompt is longer than this many bytes. */
  const MaxPromptBytes: nat := 40000

  /** The prompt once the first `k` hints are in, separated by "; ". */
  function WithHints(header: string, hints: seq<string>, k: nat): string
    requires 1 <= k <= |hints|
  {
    header + Join(hints[..k], "; ")
  }

  /** Exactly `k` hints go in: every shorter list kept the prompt within the
      cap, and the list stops before its end only once the cap is passed. */
  predicate HintsTaken(header: string, hints: seq<string>, k: nat) {
    && 1 <= k <= |hints|
    && (forall j :: 1 <= j < k ==> Utf8Length(WithHints(header, hints, j)) <= MaxPromptBytes)
    && (k < |hints| ==> Utf8Length(WithHints(header, hints, k)) > MaxPromptBytes)
  }

  lemma WithHintsStep(header: string, hints: seq<string>, i: nat)
    requires 1 <= i < |hints|
    ensures WithHints(header, hints, i + 1) == WithHints(header, hints, i) + "; " + hints[i]
  {
    TakeSnoc(hints, i);
    JoinSnoc(hints[..i], hints[i], "; ");
  }

  /** The hint loop of `build_llm_prompt`: after `header`, hints in order,
      separated by "; ", until the prompt passes the byte cap. */
  method PushHints(header: string, hints: seq<string>) returns (prompt: string)
    requires hints != []
    ensures exists k :: HintsTaken(header, hints, k) && prompt == WithHints(header, hints, k)
  {
    prompt := header;
    var i := 0;
    while i < |hints|
      invariant 0 <= i <= |hints|
      invariant prompt == if i == 0 then header else WithHints(header, hints, i)
      invariant forall j :: 1 <= j <= i ==> Utf8Length(WithHints(header, hints, j)) <= MaxPromptBytes
    {
      if i > 0 {
        prompt := prompt + "; ";
        WithHintsStep(header, hints, i);
      } else {
        assert hints[..1] == [hints[0]];
      }
      prompt := prompt + hints[i];
      i := i + 1;
      if Utf8Length(prompt) > MaxPromptBytes {
        break;
      }
    }
    assert HintsTaken(header, hints, i);
  }

  /** `build_llm_prompt`: `base` alone without hints; otherwise the header,
      the hints in order up to the byte cap, a blank line and `base`. */
  method BuildLlmPrompt(base: string, hints: seq<string>) returns (prompt: string)
    ensures hints == [] ==> prompt == base
    ensures hints != [] ==> exists k :: HintsTaken(PromptHeader, hints, k) && prompt == WithHints(PromptHeader, hints, k) + "\n\n" + base
  {
    if hints == [] {
      return base;
    }
    var listed := PushHints(PromptHeader, hints);
    prompt := listed + "\n\n" + base;
  }

  /** The number of hints taken is determined by the hints. */
  lemma HintsTakenUnique(header: string, hints: seq<string>, k: nat, k': nat)
    requires HintsTaken(header, hints, k) && HintsTaken(header, hints, k')
    ensures k == k'
  {
  }

  /** Each hint after the first adds the separator and its own bytes. */
  lemma WithHintsLength(header: string, hints: seq<string>, i: nat)
    requires 1 <= i < |hints|
    ensures Utf8Length(WithHints(header, hints, i + 1)) == Utf8Length(WithHints(header, hints, i)) + 2 + Utf8Length(hints[i])
  {
    WithHintsStep(header, hints, i);
    Utf8LengthAppend(WithHints(header, hints, i) + "; ", hints[i]);
    Utf8LengthAppend(WithHints(header, hints, i), "; ");
    assert Utf8Length("; ") == 2;
  }

  /** When every hint fits, every hint is taken. */
  lemma AllHintsWhenShort(header: string, hints: seq<string>, k: nat)
    requires hints != [] && Utf8Length(WithHints(header, hints, |hints|)) <= MaxPromptBytes
    requires HintsTaken(header, hints, k)
    ensures k == |hints|
  {
    var n := |hints|;
    var j := k;
    while j < n
      invariant k <= j <= n
      invariant k < n ==> Utf8Length(WithHints(header, hints, j)) > MaxPromptBytes
    {
      WithHintsLength(header, hints, j);
      j := j + 1;
    }
  }

  /** The cap is passed by at most the separator and the last hint taken. */
  lemma PromptOvershoot(header: string, hints: seq<string>, k: nat)
    requires HintsTaken(header, hints, k) && k >= 2
    ensures Utf8Length(WithHints(header, hints, k)) <= MaxPromptBytes + 2 + Utf8Length(hints[k - 1])
  {
    WithHintsLength(header, hints, k - 1);
  }

  // ---------------------------------------------------------------------
  // load_author_hints

  /** The normalised forms of a list of names. */
  function Norms(names: seq<string>): (r: seq<string>)
    ensures |r| == |names|
  {
    seq(|names|, i requires 0 <= i < |names| => NormalForm(names[i]))
  }

  lemma NormsSnoc(names: seq<string>, n: string)
    ensures Norms(names + [n]) == Norms(names) + [NormalForm(n)]
  {
  }

  /** The names whose normalised form is seen for the first time, in order. */
  function FirstByNorm(names: seq<string>): (r: seq<string>)
    ensures |r| <= |names|
    ensures forall i :: 0 <= i < |r| ==> r[i] in names
    ensures Distinct(Norms(r))
  {
    if names == [] then []
    else
      var init, n := names[..|names| - 1], names[|names| - 1];
      assert names == init + [n];
      var r := FirstByNorm(init);
      if NormalForm(n) in Norms(r) then r
      else
        NormsSnoc(r, n);
        DistinctSnoc(Norms(r), NormalForm(n));
        r + [n]
  }

  lemma FirstByNormSnoc(names: seq<string>, n: string)
    ensures FirstByNorm(names + [n]) ==
      if NormalForm(n) in Norms(FirstByNorm(names)) then FirstByNorm(names)
      else FirstByNorm(names) + [n]
  {
    assert (names + [n])[..|names|] == names;
  }

  lemma FirstByNormDedupStep(init: seq<string>, n: string)
    requires Norms(FirstByNorm(init)) == Dedup(Norms(init))
    ensures Norms(FirstByNorm(init + [n])) == Dedup(Norms(init + [n]))
  {
    NormsSnoc(init, n);
    DedupSnoc(Norms(init), NormalForm(n));
    FirstByNormSnoc(init, n);
    if NormalForm(n) !in Norms(FirstByNorm(init)) {
      NormsSnoc(FirstByNorm(init), n);
    }
  }

  /** The normalised forms kept are the de-duplicated normalised forms, in
      first-occurrence order. */
  lemma {:induction false} FirstByNormDedup(names: seq<string>)
    ensures Norms(FirstByNorm(names)) == Dedup(Norms(names))
  {
    if names != [] {
      var init, n := names[..|names| - 1], names[|names| - 1];
      InitLast(names);
      FirstByNormDedup(init);
      FirstByNormDedupStep(init, n);
    }
  }

  /** The rows the query returns: non-empty names, at most `max` of them. */
  function QueryRows(names: seq<string>, max: nat): (rows: seq<string>)
    ensures |rows| <= max
  {
    var ne := NonEmpty(names);
    if |ne| <= max then ne else ne[..max]
  }

  /** The loop of `load_author_hints` over the queried rows: a name is
      kept when inserting its normalised form into `seen` succeeds, and the
      loop stops once `max` names are kept. */
  method KeepFirstByNorm(rows: seq<string>, max: nat) returns (list: seq<string>)
    requires |rows| <= max
    ensures list == FirstByNorm(rows)
  {
    list := [];
    var seen: set<string> := {};
    var i := 0;
    while i < |rows|
      invariant i <= |rows|
      invariant list == FirstByNorm(rows[..i])
      invariant seen == Elems(Norms(list))
      invariant |list| <= i
    {
      var n := rows[i];
      var norm := NormalizeText(n);
      TakeSnoc(rows, i);
      FirstByNormSnoc(rows[..i], n);
      if norm !in seen {
        NormsSnoc(list, n);
        ElemsSnoc(Norms(list), norm);
        seen := seen + {norm};
        list := list + [n];
      }
      i := i + 1;
      if |list| >= max {
        break;
      }
    }
    assert i == |rows|;
    TakeAll(rows);
  }

  /** `load_author_hints`: nothing for `max` 0; otherwise the queried names,
      each kept when its normalised form is new, up to `max` names. */
  method LoadAuthorHints(names: seq<string>, max: nat) returns (list: seq<string>)
    ensures max == 0 ==> list == []
    ensures list == FirstByNorm(QueryRows(names, max))
    ensures |list| <= max
  {
    var rows := QueryRows(names, max);
    if max == 0 {
      assert rows == [];
      return [];
    }
    list := KeepFirstByNorm(rows, max);
  }

  // ---------------------------------------------------------------------
  // Alternate author ids and the work lookup

  /** The alternate ids of an authors row: none for "", otherwise the
      comma-separated fields, each trimmed. */
  function ParseAlternates(alternates: string): (ids: seq<string>)
    ensures ids == [] <==> alternates == ""
    ensures forall i :: 0 <= i < |ids| ==> ',' !in ids[i]
    ensures forall i :: 0 <= i < |ids| ==> ids[i] == [] || (!IsSpace(Rust, ids[i][0]) && !IsSpace(Rust, ids[i][|ids[i]| - 1]))
  {
    if alternates == "" then []
    else
      var fs := SplitOn(alternates, ',');
      seq(|fs|, i requires 0 <= i < |fs| => Trim(Rust, fs[i]))
  }

  /** An id list written with ",", each id non-empty, comma-free and
      without white space at either end, parses back to itself. */
  lemma AlternatesRoundTrip(ids: seq<string>)
    requires forall i :: 0 <= i < |ids| ==> ids[i] != [] && ',' !in ids[i]
    requires forall i :: 0 <= i < |ids| ==> !IsSpace(Rust, ids[i][0]) && !IsSpace(Rust, ids[i][|ids[i]| - 1])
    ensures ParseAlternates(Join(ids, ",")) == ids
  {
    if ids != [] {
      JoinNonEmpty(ids, ",");
      SplitOnJoin(ids, ',');
    }
  }

  /** A works row whose normalised title matched. */
  datatype WorkRow = WorkRow(workId: string, title: string, authorId: string, alternateId: string)

  /** What a lookup returns: work id, title and author id. */
  datatype WorkHit = WorkHit(workId: string, title: string, authorId: string)

  function HitOf(row: WorkRow): WorkHit {
    WorkHit(row.workId, row.title, row.authorId)
  }

  /** `find_work_in_db`: the first matching row, if any. */
  function FindWorkInDb(rows: seq<WorkRow>): (hit: Option<WorkHit>)
    ensures hit.None? <==> rows == []
    ensures hit.Some? ==> hit.value == HitOf(rows[0])
  {
    if rows == [] then None else Some(HitOf(rows[0]))
  }

  /** The author test of the filter: the row's author is a candidate, or
      `,c,` occurs in `,alternates,` for a candidate `c`. */
  predicate RowMatches(candidates: seq<string>, row: WorkRow) {
    || row.authorId in candidates
    || (row.alternateId != "" &&
        exists i :: 0 <= i < |candidates| && Contains([','] + row.alternateId + [','], [','] + candidates[i] + [',']))
  }

  /** For comma-free candidates the test is list membership: the author id,
      or one of the comma-separated alternates. */
  lemma RowMatchesMembers(candidates: seq<string>, row: WorkRow)
    requires forall i :: 0 <= i < |candidates| ==> ',' !in candidates[i]
    ensures RowMatches(candidates, row) <==>
      || row.authorId in candidates
      || (row.alternateId != "" && exists i :: 0 <= i < |candidates| && candidates[i] in SplitOn(row.alternateId, ','))
  {
    var fs := SplitOn(row.alternateId, ',');
    JoinSplitOn(row.alternateId, ',');
    forall i | 0 <= i < |candidates|
      ensures Contains([','] + row.alternateId + [','], [','] + candidates[i] + [',']) <==> candidates[i] in fs
    {
      WrappedMember(fs, candidates[i], ',');
    }
  }

  /** The loop over the candidates, with its early exit. */
  method MatchesRow(candidates: seq<string>, row: WorkRow) returns (ok: bool)
    ensures ok == RowMatches(candidates, row)
  {
    ok := row.authorId in candidates;
    if !ok && row.alternateId != "" {
      var csv := [','] + row.alternateId + [','];
      for i := 0 to |candidates|
        invariant !ok
        invariant forall j :: 0 <= j < i ==> !Contains(csv, [','] + candidates[j] + [','])
      {
        if Contains(csv, [','] + candidates[i] + [',']) {
          ok := true;
          return;
        }
      }
    }
  }

  /** The first row that passes the author test. */
  function FirstMatch(candidates: seq<string>, rows: seq<WorkRow>): (hit: Option<WorkHit>)
    ensures hit.Some? ==> exists i :: 0 <= i < |rows| && RowMatches(candidates, rows[i]) && hit.value == HitOf(rows[i])
    ensures hit.None? <==> forall i :: 0 <= i < |rows| ==> !RowMatches(candidates, rows[i])
  {
    if rows == [] then None
    else if RowMatches(candidates, rows[0]) then Some(HitOf(rows[0]))
    else
      var h := FirstMatch(candidates, rows[1..]);
      assert forall i :: 1 <= i < |rows| ==> rows[i] == rows[1..][i - 1];
      h
  }

  /** The filtering loop of `find_work_by_title_and_author`. */
  method FilterByAuthor(candidates: seq<string>, rows: seq<WorkRow>) returns (hit: Option<WorkHit>)
    ensures hit == FirstMatch(candidates, rows)
  {
    var i := 0;
    while i < |rows|
      invariant i <= |rows|
      invariant FirstMatch(candidates, rows) == FirstMatch(candidates, rows[i..])
    {
      assert rows[i..][1..] == rows[i + 1..];
      var ok := MatchesRow(candidates, rows[i]);
      if ok {
        return Some(HitOf(rows[i]));
      }
      i := i + 1;
    }
    return None;
  }

  /** `find_work_by_title_and_author`: nothing without candidates; the
      direct title hit when there is one; otherwise the author filter over
      the same rows.  Both queries read the rows with the same title, so
      the filter only ever runs over no rows: the answer is the direct hit. */
  method FindWorkByTitleAndAuthor(candidates: seq<string>, rows: seq<WorkRow>) returns (hit: Option<WorkHit>)
    ensures candidates == [] ==> hit.None?
    ensures candidates != [] ==> hit == FindWorkInDb(rows)
  {
    if candidates == [] {
      return None;
    }
    var direct := FindWorkInDb(rows);
    if direct.Some? {
      return direct;
    }
    hit := FilterByAuthor(candidates, rows);
  }

  // ---------------------------------------------------------------------
  // Resume filter

  /** The modes `run` writes to the state log. */
  const WrittenModes: set<string> := {
    "normal", "normal-fail", "strict-fail-title", "full-fail", "full-normal",
    "full-raw", "strict-fail", "strict-fail-author", "strict"
  }

  /** The modes `run` writes after a file was sorted. */
  const SuccessModes: set<string> := {"normal", "full-normal", "full-raw", "strict"}

  /** The success test as written: it names "full-brut", a mode no record
      carries, and misses "full-raw". */
  predicate ModeOkAsWritten(m: string) {
    m == "strict" || m == "full-normal" || m == "full-brut" || m == "normal"
  }

  /** The success test with the mode the tool actually writes. */
  predicate ModeOk(m: string) {
    m == "strict" || m == "full-normal" || m == "full-raw" || m == "normal"
  }

  /** The path a decoded state record marks as done under `modeOk`. */
  function DonePath(v: Json, modeOk: string -> bool): (p: Option<string>)
    ensures p.Some? ==> v.Obj? && "path" in v.fields && v.fields["path"] == Str(p.value)
  {
    if v.Obj? && "mode" in v.fields && v.fields["mode"].Str? && modeOk(v.fields["mode"].s)
      && "path" in v.fields && v.fields["path"].Str?
    then Some(v.fields["path"].s)
    else None
  }

  /** The path a state-log line marks as done, if it decodes. */
  function LineDonePath(decode: string -> Option<Json>, line: string, modeOk: string -> bool): Option<string> {
    match decode(line)
    case None => None
    case Some(v) => DonePath(v, modeOk)
  }

  /** The paths the state log marks as done. */
  function SeenOk(decode: string -> Option<Json>, lines: seq<string>, modeOk: string -> bool): set<string> {
    if lines == [] then {}
    else
      var init := SeenOk(decode, lines[..|lines| - 1], modeOk);
      match LineDonePath(decode, lines[|lines| - 1], modeOk)
      case None => init
      case Some(p) => init + {p}
  }

  /** A path is done exactly when some line of the log marks it. */
  lemma {:induction false} SeenOkMember(decode: string -> Option<Json>, lines: seq<string>, modeOk: string -> bool, p: string)
    ensures p in SeenOk(decode, lines, modeOk) <==>
      exists i :: 0 <= i < |lines| && LineDonePath(decode, lines[i], modeOk) == Some(p)
  {
    if lines != [] {
      var init := lines[..|lines| - 1];
      SeenOkMember(decode, init, modeOk, p);
      assert forall i :: 0 <= i < |init| ==> init[i] == lines[i];
    }
  }

  /** The resume pass over the state log: each line that decodes to a
      success record adds its path. */
  method LoadSeenOk(decode: string -> Option<Json>, lines: seq<string>, modeOk: string -> bool) returns (seen: set<string>)
    ensures seen == SeenOk(decode, lines, modeOk)
  {
    seen := {};
    for i := 0 to |lines|
      invariant seen == SeenOk(decode, lines[..i], modeOk)
    {
      assert lines[..i + 1][..i] == lines[..i];
      var parsed := decode(lines[i]);
      if parsed.Some? {
        var v := parsed.value;
        var ok := v.Obj? && "mode" in v.fields && v.fields["mode"].Str? && modeOk(v.fields["mode"].s);
        if ok && "path" in v.fields && v.fields["path"].Str? {
          seen := seen + {v.fields["path"].s};
        }
      }
    }
    assert lines[..|lines|] == lines;
  }

  /** `v` is a state record naming `path` and `mode`, as `run` writes them. */
  predicate IsRecord(v: Json, path: string, mode: string) {
    && v.Obj?
    && "path" in v.fields && v.fields["path"] == Str(path)
    && "mode" in v.fields && v.fields["mode"] == Str(mode)
  }

  lemma DonePathOfRecord(v: Json, path: string, mode: string, modeOk: string -> bool)
    requires IsRecord(v, path, mode)
    ensures DonePath(v, modeOk) == if modeOk(mode) then Some(path) else None
  {
  }

  /** As written, a file sorted in "full" mode through the raw fallback is
      recorded as "full-raw" and is not marked as done, so the next run
      sorts it again. */
  lemma RawSuccessRetried(decode: string -> Option<Json>, line: string, path: string)
    requires decode(line).Some? && IsRecord(decode(line).value, path, "full-raw")
    ensures "full-raw" in SuccessModes && "full-brut" !in WrittenModes
    ensures path !in SeenOk(decode, [line], ModeOkAsWritten)
  {
    assert [line][..0] == [];
    DonePathOfRecord(decode(line).value, path, "full-raw", ModeOkAsWritten);
  }

  /** The corrected test accepts exactly the success modes. */
  lemma ModeOkSuccess(m: string)
    ensures ModeOk(m) <==> m in SuccessModes
  {
  }

  /** With the corrected test a path is done exactly when some record of a
      successful sort names it. */
  lemma DoneExactlyWhenSorted(decode: string -> Option<Json>, lines: seq<string>, p: string)
    ensures p in SeenOk(decode, lines, ModeOk) <==>
      exists i, m :: 0 <= i < |lines| && decode(lines[i]).Some? && IsRecord(decode(lines[i]).value, p, m) && m in SuccessModes
  {
    SeenOkMember(decode, lines, ModeOk, p);
    forall i, m | 0 <= i < |lines| && decode(lines[i]).Some? && IsRecord(decode(lines[i]).value, p, m) && m in SuccessModes
      ensures LineDonePath(decode, lines[i], ModeOk) == Some(p)
    {
      ModeOkSuccess(m);
      DonePathOfRecord(decode(lines[i]).value, p, m, ModeOk);
    }
    forall i | 0 <= i < |lines| && LineDonePath(decode, lines[i], ModeOk) == Some(p)
      ensures decode(lines[i]).Some? && IsRecord(decode(lines[i]).value, p, decode(lines[i]).value.fields["mode"].s)
      ensures decode(lines[i]).value.fields["mode"].s in SuccessModes
    {
      ModeOkSuccess(decode(lines[i]).value.fields["mode"].s);
    }
  }
}
