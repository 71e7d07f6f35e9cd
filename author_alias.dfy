/**
  The online alias resolver: the search query built from an author
  folder's name, the scoring form of names, the "Last, First" folder name
  derived from a resolved label, and the run's counters.
 */
module AuthorAlias {
  import opened Wrappers
  import opened Unicode
  import opened Text
  import opened Lists
  import Cleanup

  // ---------------------------------------------------------------------
  // Shortening a description for display

  /** `truncate` as written: the UTF-8 byte length is compared with `max`,
      then `max` characters are kept and an ellipsis added. */
  function TruncatedAsWritten(s: string, max: nat): string {
    if Utf8Length(s) <= max then s
    else s[..if max <= |s| then max else |s|] + "\U{2026}"
  }

  /** As written, a text of at most `max` characters but more than `max`
      bytes loses nothing yet gets the ellipsis. */
  lemma TruncateMarksUncutAsWritten(s: string, max: nat)
    requires |s| <= max < Utf8Length(s)
    ensures TruncatedAsWritten(s, max) == s + "\U{2026}"
  {
  }

  lemma TruncateAsWrittenExample()
    ensures TruncatedAsWritten("\U{00E9}", 1) == "\U{00E9}\U{2026}"
  {
    TruncateMarksUncutAsWritten("\U{00E9}", 1);
  }

  /** `truncate` with the length counted in characters: the text itself when
      it fits, else its first `max` characters and an ellipsis. */
  function Truncated(s: string, max: nat): (r: string)
    ensures |s| <= max ==> r == s
    ensures |s| > max ==> |r| == max + 1 && r[..max] == s[..max] && r[max] == '\U{2026}'
  {
    if |s| <= max then s else s[..max] + "\U{2026}"
  }

  /** The character-by-character copy of the first `max` characters. */
  method Truncate(s: string, max: nat) returns (out: string)
    ensures out == Truncated(s, max)
  {
    if |s| <= max {
      return s;
    }
    out := [];
    var i := 0;
    while i < max
      invariant i <= max
      invariant out == s[..i]
    {
      out := out + [s[i]];
      i := i + 1;
    }
    out := out + "\U{2026}";
  }

  // ---------------------------------------------------------------------
  // Folder names

  /** Characters a folder name may not hold. */
  predicate BadDirChar(c: char) {
    c == '/' || c == '\\' || c == ':' || c == '|' || c == '"' || c == '<' || c == '>' || c == '*' || c == '?'
  }

  function DirSafe(c: char): (r: char)
    ensures !BadDirChar(r)
  {
    if BadDirChar(c) then '_' else c
  }

  /** `sanitize_dir_name`: "" for blank input, else the trimmed input with
      each forbidden character replaced by '_', one for one. */
  function SanitizedDirName(name: string): (r: string)
    ensures Trim(Rust, name) == [] <==> r == []
    ensures |r| == |Trim(Rust, name)|
    ensures forall i :: 0 <= i < |r| ==> !BadDirChar(r[i])
    ensures forall i :: 0 <= i < |r| ==>
      r[i] == if BadDirChar(Trim(Rust, name)[i]) then '_' else Trim(Rust, name)[i]
  {
    MapChars(DirSafe, Trim(Rust, name))
  }

  /** The loop pushing one character per input character. */
  method SanitizeDirName(name: string) returns (out: string)
    ensures out == SanitizedDirName(name)
  {
    var s := Trim(Rust, name);
    if s == [] {
      return [];
    }
    out := [];
    for i := 0 to |s|
      invariant out == MapChars(DirSafe, s[..i])
    {
      MapCharsSnoc(DirSafe, s, i);
      if BadDirChar(s[i]) {
        out := out + ['_'];
      } else {
        out := out + [s[i]];
      }
    }
    assert s[..|s|] == s;
  }

  /** A sanitised name is left as it is. */
  lemma SanitizedDirNameIdempotent(name: string)
    ensures SanitizedDirName(SanitizedDirName(name)) == SanitizedDirName(name)
  {
    var r := SanitizedDirName(name);
    SanitizedDirNameTrimmed(name);
    SafeNameFixed(r);
  }

  lemma SanitizedDirNameTrimmed(name: string)
    ensures Trim(Rust, SanitizedDirName(name)) == SanitizedDirName(name)
  {
    forall c ensures IsSpace(Rust, DirSafe(c)) == IsSpace(Rust, c) {
      DirSafeKeepsSpace(c);
    }
    TrimMapFixed(Rust, DirSafe, Trim(Rust, name));
  }

  lemma SafeNameFixed(r: string)
    requires forall i :: 0 <= i < |r| ==> !BadDirChar(r[i])
    ensures MapChars(DirSafe, r) == r
  {
    MapCharsFixed(DirSafe, r);
  }

  lemma DirSafeKeepsSpace(c: char)
    ensures IsSpace(Rust, DirSafe(c)) == IsSpace(Rust, c)
  {
  }

  // ---------------------------------------------------------------------
  // "Last, First"

  /** One part of a folder name: accents stripped, trimmed, each word
      capitalised. */
  function NamePart(s: string): (r: string)
    ensures SingleSpaced(Rust, r)
  {
    Cleanup.CapitalizeWords(Trim(Rust, Cleanup.StripAccents(s)))
  }

  /** `format_author_dir`: "Last, First" when both parts are present, else
      whichever is. */
  function FormatAuthorDir(first: string, last: string): (r: string)
    ensures NamePart(last) != [] && NamePart(first) != [] ==> r == NamePart(last) + ", " + NamePart(first)
    ensures NamePart(last) != [] && NamePart(first) == [] ==> r == NamePart(last)
    ensures NamePart(last) == [] ==> r == NamePart(first)
  {
    var f, l := NamePart(first), NamePart(last);
    if l != [] && f != [] then l + ", " + f
    else if l != [] then l
    else f
  }

  predicate NotComma(c: char) { c != ',' }

  /** Text with no white space at either end. */
  predicate Trimmed(s: string) {
    s == [] || (!IsSpace(Rust, s[0]) && !IsSpace(Rust, s[|s| - 1]))
  }

  /** The trimmed parts around the first comma when both are non-empty, as
      (after, before). */
  function SplitAtComma(s: string): (r: Option<(string, string)>)
    ensures ',' !in s ==> r.None?
    ensures r.Some? ==> r.value.0 != [] && r.value.1 != [] && ',' !in r.value.1
    ensures r.Some? ==> Trimmed(r.value.0) && Trimmed(r.value.1)
  {
    match IndexOf(s, ',')
    case None => None
    case Some(idx) =>
      var before, after := Trim(Rust, s[..idx]), Trim(Rust, s[idx + 1..]);
      if before != [] && after != [] then
        TrimAll(Rust, NotComma, s[..idx]);
        Some((after, before))
      else None
  }

  /** Both parts are read back from "before, after". */
  lemma SplitAtCommaOf(before: string, after: string)
    requires before != [] && after != [] && ',' !in before
    requires Trimmed(before) && Trimmed(after)
    ensures SplitAtComma(before + ", " + after) == Some((after, before))
  {
    var rest := " " + after;
    assert before + ", " + after == before + [','] + rest;
    IndexOfAfter(before, ',', rest);
    SplitAround(before, ',', rest);
    TrimSpaceBefore(Rust, after);
  }

  /** A property of every character of the text holds of both parts. */
  lemma SplitAtCommaAll(s: string, p: char -> bool)
    requires All(p, s)
    ensures SplitAtComma(s).Some? ==> All(p, SplitAtComma(s).value.0) && All(p, SplitAtComma(s).value.1)
  {
    match IndexOf(s, ',')
    case None =>
    case Some(idx) =>
      TrimAll(Rust, p, s[..idx]);
      TrimAll(Rust, p, s[idx + 1..]);
  }

  /** The label split as "First [Middle...] Last": all words but the last,
      and the last, or the whole label and "" for fewer than two words. */
  function LabelParts(labelText: string): (r: (string, string))
    ensures Words(Rust, r.0) + Words(Rust, r.1) == Words(Rust, labelText)
    ensures |Words(Rust, labelText)| >= 2 <==> |Words(Rust, r.1)| == 1
    ensures |Words(Rust, labelText)| < 2 ==> r == (labelText, "")
  {
    var tokens := Words(Rust, labelText);
    WordsOfJoin(Rust, []);
    if |tokens| >= 2 then
      var init, last := tokens[..|tokens| - 1], tokens[|tokens| - 1];
      WordsOfJoin(Rust, init);
      WordsOfJoin(Rust, [last]);
      InitLast(tokens);
      (Join(init, " "), last)
    else
      AppendNil(tokens);
      (labelText, "")
  }

  /** `pick_first_last`: (first, last) from a "Last, First" local name,
      else from the label. */
  function PickFirstLast(localName: string, labelText: string): (r: (string, string))
    ensures SplitAtComma(localName).Some? ==> r == SplitAtComma(localName).value
    ensures SplitAtComma(localName).None? ==> r == LabelParts(labelText)
  {
    match SplitAtComma(localName)
    case Some(parts) => parts
    case None => LabelParts(labelText)
  }

  /** A part already in folder form: non-empty, comma-free, and unchanged
      by the accent stripping and capitalisation. */
  predicate IsNamePart(s: string) {
    s != [] && ',' !in s && NamePart(s) == s
  }

  /** The folder name of two parts in folder form reads back as the same
      two parts. */
  lemma FormatThenPick(first: string, last: string, labelText: string)
    requires IsNamePart(first) && IsNamePart(last)
    ensures PickFirstLast(FormatAuthorDir(first, last), labelText) == (first, last)
  {
    SplitAtCommaOf(last, first);
  }

  /** `invert_first_last`: "Last, First Middle..." for a label of two words
      or more. */
  function InvertFirstLast(labelText: string): (r: Option<string>)
    ensures r.None? <==> |Words(Rust, labelText)| < 2
  {
    var tokens := Words(Rust, labelText);
    if |tokens| >= 2 then
      Some(tokens[|tokens| - 1] + ", " + Join(tokens[..|tokens| - 1], " "))
    else None
  }

  /** Reading an inverted comma-free label as a local name splits it where
      the label itself is split. */
  lemma InvertThenPick(labelText: string, other: string)
    requires ',' !in labelText && |Words(Rust, labelText)| >= 2
    ensures InvertFirstLast(labelText).Some?
    ensures PickFirstLast(InvertFirstLast(labelText).value, other) == LabelParts(labelText)
  {
    var tokens := Words(Rust, labelText);
    var init, last := tokens[..|tokens| - 1], tokens[|tokens| - 1];
    assert All(NotComma, labelText);
    WordsAll(Rust, labelText, NotComma);
    assert All(NotComma, last);
    JoinNonEmpty(init, " ");
    JoinLast(init, " ");
    SplitAtCommaOf(last, Join(init, " "));
  }

  // ---------------------------------------------------------------------
  // Search query

  /** Characters the query keeps; every other one becomes a space. */
  predicate QueryKeep(c: char) { IsAsciiAlnum(c) || IsSpace(Rust, c) || c == ',' }

  function QueryChar(c: char): char {
    if QueryKeep(c) then c else ' '
  }

  predicate QueryOut(c: char) { IsAsciiAlnum(c) || c == ',' || c == ' ' }

  /** The query text as written: the compatibility decomposition is taken
      but its combining marks are then mapped to spaces like any other
      character. */
  function QueryTextAsWritten(s: string): string {
    Squeeze(Rust, MapChars(QueryChar, Nfkd(s)))
  }

  /** As written, an accented letter splits its word: "Ren\u{e9}e" is
      searched as "Rene e". */
  lemma AccentSplitsQueryAsWritten(a: string, b: string)
    ensures QueryTextAsWritten(a + "\U{00E9}" + b) == QueryTextAsWritten(a + "e " + b)
  {
    NfkdAcuteIn(a, b);
    NfkdSpaceIn(a, b);
    MarkAsSpaceIn(Nfkd(a), Nfkd(b));
  }

  lemma NfkdAcuteIn(a: string, b: string)
    ensures Nfkd(a + "\U{00E9}" + b) == Nfkd(a) + "e\U{0301}" + Nfkd(b)
  {
    NfkdAround(a, "\U{00E9}", b);
    NfkdSingle('\U{00E9}');
    AcuteDecomposes();
  }

  lemma NfkdSpaceIn(a: string, b: string)
    ensures Nfkd(a + "e " + b) == Nfkd(a) + "e " + Nfkd(b)
  {
    NfkdAround(a, "e ", b);
    assert All(IsAscii, "e ");
  }

  lemma MarkAsSpaceIn(x: string, y: string)
    ensures MapChars(QueryChar, x + "e\U{0301}" + y) == MapChars(QueryChar, x + "e " + y)
  {
    MapCharsAround(QueryChar, x, "e\U{0301}", y);
    MapCharsAround(QueryChar, x, "e ", y);
    MarkAsSpace();
  }

  /** The decomposition of a middle piece between two texts. */
  lemma NfkdAround(a: string, m: string, b: string)
    ensures Nfkd(a + m + b) == Nfkd(a) + Nfkd(m) + Nfkd(b)
  {
    NfkdAppend(a + m, b);
    NfkdAppend(a, m);
  }

  lemma AcuteDecomposes()
    ensures CompatDecompose('\U{00E9}') == "e\U{0301}"
  {
  }

  lemma MapCharsAround(f: char -> char, x: string, m: string, y: string)
    ensures MapChars(f, x + m + y) == MapChars(f, x) + MapChars(f, m) + MapChars(f, y)
  {
    MapCharsAppend(f, x + m, y);
    MapCharsAppend(f, x, m);
  }

  lemma MarkAsSpace()
    ensures MapChars(QueryChar, "e\U{0301}") == MapChars(QueryChar, "e ")
  {
  }

  /** The query text with the combining marks dropped, as the stripping of
      accents elsewhere in the program does. */
  function QueryText(s: string): (r: string)
    ensures All(QueryOut, r)
  {
    var m := MapChars(QueryChar, Cleanup.StripAccents(s));
    assert All(QueryKeep, m);
    SqueezeAll(Rust, m, QueryKeep, QueryOut);
    Squeeze(Rust, m)
  }

  /** An accented letter is searched as its base letter. */
  lemma AccentKeptInQuery(a: string, b: string)
    ensures QueryText(a + "\U{00E9}" + b) == QueryText(a + "e" + b)
  {
    StripAccentsAround(a, '\U{00E9}', b);
    StripAccentsAround(a, 'e', b);
    StripAccentsAcute();
    assert Cleanup.StripAccents("e") == "e" by {
      assert All(IsAscii, "e");
    }
  }

  lemma StripAccentsAround(a: string, c: char, b: string)
    ensures Cleanup.StripAccents(a + [c] + b) == Cleanup.StripAccents(a) + Cleanup.StripAccents([c]) + Cleanup.StripAccents(b)
  {
    Cleanup.StripAccentsAppend(a + [c], b);
    Cleanup.StripAccentsAppend(a, [c]);
  }

  lemma StripAccentsAcute()
    ensures Cleanup.StripAccents("\U{00E9}") == "e"
  {
    NfkdSingle('\U{00E9}');
    AcuteDecomposes();
    FilterAppend(NotMark, "e", "\U{0301}");
    FilterSingle(NotMark, 'e');
    FilterSingle(NotMark, '\U{0301}');
  }

  /** The correction only matters where the decomposition holds a
      combining mark: on every other text the query as written and
      corrected coincide. */
  lemma QueryTextAgrees(s: string)
    requires All(NotMark, Nfkd(s))
    ensures QueryTextAsWritten(s) == QueryText(s)
  {
    assert Cleanup.StripAccents(s) == Nfkd(s);
  }

  /** `normalize_query`: bracketed and parenthesised text removed, the text
      reduced to ASCII letters, digits, commas and single spaces, and a
      "Last, First" form turned into "First Last". */
  function NormalizeQuery(name: string): (r: string)
    ensures All(QueryOut, r)
  {
    FirstLast(QueryText(Cleanup.ReplaceEnclosed('(', ')', "", Cleanup.ReplaceEnclosed('[', ']', "", name))))
  }

  /** "Last, First" turned into "First Last"; any other text kept. */
  function FirstLast(s: string): (r: string)
    ensures All(QueryOut, s) ==> All(QueryOut, r)
  {
    match SplitAtComma(s)
    case Some(parts) =>
      assert All(QueryOut, s) ==> All(QueryOut, parts.0) && All(QueryOut, parts.1) by {
        if All(QueryOut, s) { SplitAtCommaAll(s, QueryOut); }
      }
      parts.0 + " " + parts.1
    case None => s
  }

  /** Names made of words of ASCII letters and digits. */
  predicate AlnumWords(ws: seq<string>) {
    ws != [] && forall i :: 0 <= i < |ws| ==> ws[i] != [] && All(IsAsciiAlnum, ws[i])
  }

  /** A "Last, First" query becomes "First Last". */
  lemma NormalizeQueryLastFirst(lastWords: seq<string>, firstWords: seq<string>)
    requires AlnumWords(lastWords) && AlnumWords(firstWords)
    ensures NormalizeQuery(Join(lastWords, " ") + ", " + Join(firstWords, " ")) ==
      Join(firstWords, " ") + " " + Join(lastWords, " ")
  {
    var last, first := Join(lastWords, " "), Join(firstWords, " ");
    var name := last + ", " + first;
    AlnumJoin(lastWords);
    AlnumJoin(firstWords);
    assert All(QueryOut, name);
    QuerySqueezeFixed(lastWords, firstWords);
    QueryTextOfClean(name);
    SplitAtCommaOf(last, first);
  }

  /** Text already in query form, without brackets or parentheses, passes
      through the clean-up unchanged. */
  lemma QueryTextOfClean(s: string)
    requires All(QueryOut, s) && Squeeze(Rust, s) == s
    ensures Cleanup.ReplaceEnclosed('(', ')', "", Cleanup.ReplaceEnclosed('[', ']', "", s)) == s
    ensures QueryText(s) == s
  {
    assert '[' !in s && '(' !in s by {
      assert forall c :: c in s ==> QueryOut(c);
    }
    AllMono(QueryOut, IsAscii, s);
    MapCharsFixed(QueryChar, s);
  }

  /** The join of alphanumeric words: non-empty, alphanumeric or ' ', and
      trimmed. */
  lemma AlnumJoin(ws: seq<string>)
    requires AlnumWords(ws)
    ensures Join(ws, " ") != [] && All(QueryOut, Join(ws, " ")) && Trimmed(Join(ws, " "))
    ensures ',' !in Join(ws, " ")
    ensures IsWordList(Rust, ws)
  {
    JoinNonEmpty(ws, " ");
    JoinLast(ws, " ");
    forall i | 0 <= i < |ws| ensures All(AlnumOrSpace, ws[i]) && SpaceFree(Rust, ws[i]) {
      AllMono(IsAsciiAlnum, AlnumOrSpace, ws[i]);
    }
    JoinAll(ws, AlnumOrSpace);
    AllMono(AlnumOrSpace, QueryOut, Join(ws, " "));
    assert forall c :: c in Join(ws, " ") ==> AlnumOrSpace(c);
  }

  predicate AlnumOrSpace(c: char) { IsAsciiAlnum(c) || c == ' ' }

  /** "Last, First" of alphanumeric words is already squeezed. */
  lemma QuerySqueezeFixed(lastWords: seq<string>, firstWords: seq<string>)
    requires AlnumWords(lastWords) && AlnumWords(firstWords)
    ensures Squeeze(Rust, Join(lastWords, " ") + ", " + Join(firstWords, " ")) ==
      Join(lastWords, " ") + ", " + Join(firstWords, " ")
  {
    var n := |lastWords|;
    var glued := lastWords[..n - 1] + [lastWords[n - 1] + ","];
    var x, y := Join(lastWords, " "), Join(firstWords, " ");
    GluedWordList(lastWords, firstWords);
    SqueezeOfJoin(Rust, glued + firstWords);
    JoinGlue(lastWords, " ", ",");
    JoinAppend(glued, firstWords, " ");
    assert Join(glued + firstWords, " ") == x + "," + " " + y;
    assert x + "," + " " + y == x + ", " + y;
  }

  lemma GluedWordList(lastWords: seq<string>, firstWords: seq<string>)
    requires AlnumWords(lastWords) && AlnumWords(firstWords)
    ensures IsWordList(Rust, lastWords[..|lastWords| - 1] + [lastWords[|lastWords| - 1] + ","] + firstWords)
  {
    var n := |lastWords|;
    var w := lastWords[n - 1] + ",";
    var ws := lastWords[..n - 1] + [w] + firstWords;
    AlnumJoin(lastWords);
    AlnumJoin(firstWords);
    assert SpaceFree(Rust, w);
    forall i | 0 <= i < |ws| ensures ws[i] != [] && SpaceFree(Rust, ws[i]) {
      if i < n - 1 { assert ws[i] == lastWords[i]; }
      else if i >= n { assert ws[i] == firstWords[i - n]; }
    }
  }

  // ---------------------------------------------------------------------
  // Scoring form

  predicate ScoreOut(c: char) { IsAsciiLower(c) || IsAsciiDigit(c) || c == ' ' }

  function ScoreChar(c: char): (r: char)
    ensures ScoreOut(r)
  {
    if IsAsciiAlnum(c) then AsciiLower(c) else ' '
  }

  /** `normalize_for_score`: accents stripped, lower-case ASCII letters and
      digits kept, every other character a separator, single spaces. */
  function NormalizeForScore(s: string): (r: string)
    ensures All(ScoreOut, r)
    ensures SingleSpaced(Rust, r)
  {
    var m := MapChars(ScoreChar, Cleanup.StripAccents(s));
    SqueezeAll(Rust, m, ScoreOut, ScoreOut);
    SqueezeSingleSpaced(Rust, m);
    Squeeze(Rust, m)
  }

  /** The scoring form is a fixed point. */
  lemma NormalizeForScoreIdempotent(s: string)
    ensures NormalizeForScore(NormalizeForScore(s)) == NormalizeForScore(s)
  {
    var r := NormalizeForScore(s);
    AllMono(ScoreOut, IsAscii, r);
    MapCharsFixed(ScoreChar, r);
    SqueezeIdempotent(Rust, MapChars(ScoreChar, Cleanup.StripAccents(s)));
  }

  // ---------------------------------------------------------------------
  // The run's counters

  /** Names among `names` whose search finds an entity. */
  function ResolvedCount(names: seq<string>, found: string -> bool): (n: nat)
    ensures n <= |names|
  {
    if names == [] then 0
    else ResolvedCount(names[..|names| - 1], found) + (if found(NormalizeQuery(names[|names| - 1])) then 1 else 0)
  }

  /** The loop of the run over the sorted author names: at most `limit`
      names (all when 0) are processed, and those whose query finds an
      entity count as resolved.  `found` stands for the online search. */
  method CountRun(authors: seq<string>, limit: nat, found: string -> bool) returns (count: nat, resolved: nat)
    ensures count == if 0 < limit < |authors| then limit else |authors|
    ensures resolved == ResolvedCount(authors[..count], found)
    ensures resolved <= count
  {
    count, resolved := 0, 0;
    while count < |authors|
      invariant count <= |authors|
      invariant limit > 0 ==> count <= limit
      invariant resolved == ResolvedCount(authors[..count], found)
    {
      if limit > 0 && count >= limit {
        break;
      }
      var query := NormalizeQuery(authors[count]);
      if found(query) {
        resolved := resolved + 1;
      }
      TakeTake(authors, count);
      count := count + 1;
    }
  }
}
