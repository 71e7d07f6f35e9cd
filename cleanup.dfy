/**
  The string helpers of the author-folder cleanup tool: file-name
  sanitising, the comparison form of a name, the display form
  "Last, First", the list of spelling variants tried against the database,
  and the longest-common-subsequence length behind its similarity ratio.
 */
module Cleanup {
  import opened Wrappers
  import opened Unicode
  import opened Text
  import opened Lists

  // ---------------------------------------------------------------------
  // Accents

  /** `strip_accents`: compatibility decomposition, combining marks dropped. */
  function StripAccents(s: string): (r: string)
    ensures All(NotMark, r)
    ensures All(IsAscii, s) ==> r == s
  {
    assert All(IsAscii, s) ==> All(NotMark, s) by {
      if All(IsAscii, s) { AllMono(IsAscii, NotMark, s); }
    }
    Filter(NotMark, Nfkd(s))
  }

  lemma StripAccentsAppend(a: string, b: string)
    ensures StripAccents(a + b) == StripAccents(a) + StripAccents(b)
  {
    NfkdAppend(a, b);
    FilterAppend(NotMark, Nfkd(a), Nfkd(b));
  }

  // ---------------------------------------------------------------------
  // File-name components

  /** The characters that file names may not contain. */
  predicate InvalidFilenameChar(c: char) {
    c in ['<', '>', ':', '"', '/', '\\', '|', '?', '*']
  }

  /** The device names Windows reserves, in lower case. */
  predicate WindowsReserved(s: string) {
    s in [
      "con", "prn", "aux", "nul", "com1", "com2", "com3", "com4", "com5", "com6", "com7", "com8",
      "com9", "lpt1", "lpt2", "lpt3", "lpt4", "lpt5", "lpt6", "lpt7", "lpt8", "lpt9"]
  }

  predicate DotOrSpace(c: char) { c == '.' || IsSpace(Rust, c) }

  predicate IsDot(c: char) { c == '.' }

  function ReplaceInvalid(c: char): (r: char)
    ensures !InvalidFilenameChar(r)
    ensures DotOrSpace(r) <==> DotOrSpace(c)
  {
    if InvalidFilenameChar(c) then '_' else c
  }

  /** The form compared with the reserved names: trimmed, dots trimmed,
      ASCII letters lower-cased. */
  function ReservedKey(cleaned: string): string {
    MapChars(AsciiLower, TrimBy(IsDot, Trim(Rust, cleaned)))
  }

  /** A component the sanitiser leaves alone apart from the reserved-name
      prefix: non-empty, no dot or white space at either end, no character
      that file names forbid. */
  predicate CleanComponent(s: string) {
    && s != []
    && !DotOrSpace(s[0]) && !DotOrSpace(s[|s| - 1])
    && forall i :: 0 <= i < |s| ==> !InvalidFilenameChar(s[i])
  }

  lemma CleanKey(s: string)
    requires CleanComponent(s)
    ensures ReservedKey(s) == MapChars(AsciiLower, s)
  {
    assert Trim(Rust, s) == s;
    assert TrimBy(IsDot, s) == s;
  }

  /** `sanitize_component`.  After the first trim the text has no dot or
      white space at its ends and the replacement keeps it so; the second
      trim therefore changes nothing and the second emptiness test of the
      original never succeeds, so the model leaves that test out. */
  function SanitizeComponent(value: string): (r: string)
    ensures CleanComponent(r)
    ensures !WindowsReserved(MapChars(AsciiLower, r))
    ensures All(DotOrSpace, value) ==> r == "_"
  {
    var cleaned := TrimBy(DotOrSpace, value);
    if cleaned == [] then
      assert MapChars(AsciiLower, "_") == "_";
      "_"
    else
      var replaced := Trim(Rust, MapChars(ReplaceInvalid, cleaned));
      ReplacedClean(cleaned);
      CleanKey(replaced);
      if WindowsReserved(ReservedKey(replaced)) then
        PrefixedClean(replaced);
        "_" + replaced
      else replaced
  }

  /** `body` is `cleaned` with each forbidden character made '_' and every
      other kept. */
  predicate ReplacedFrom(cleaned: string, body: string) {
    |body| == |cleaned| &&
    forall i :: 0 <= i < |cleaned| ==> body[i] == if InvalidFilenameChar(cleaned[i]) then '_' else cleaned[i]
  }

  /** Character by character: the input with dots and white space trimmed
      from its ends, each forbidden character made '_' and every other kept;
      with a '_' in front when that, ASCII lower-cased, is a reserved device
      name, and as it is otherwise. */
  lemma SanitizeComponentChars(value: string)
    ensures var cleaned, r := TrimBy(DotOrSpace, value), SanitizeComponent(value);
      cleaned != [] ==>
        || (&& r != [] && r[0] == '_'
            && ReplacedFrom(cleaned, r[1..]) && WindowsReserved(MapChars(AsciiLower, r[1..])))
        || (ReplacedFrom(cleaned, r) && !WindowsReserved(MapChars(AsciiLower, r)))
  {
    var cleaned := TrimBy(DotOrSpace, value);
    if cleaned != [] {
      SanitizeComponentShape(value);
      PrefixedOrNot(cleaned, SanitizeComponent(value));
    }
  }

  /** The result is the replaced text, prefixed by '_' when reserved. */
  lemma SanitizeComponentShape(value: string)
    requires TrimBy(DotOrSpace, value) != []
    ensures var body := MapChars(ReplaceInvalid, TrimBy(DotOrSpace, value));
      SanitizeComponent(value) == if WindowsReserved(MapChars(AsciiLower, body)) then "_" + body else body
  {
    var cleaned := TrimBy(DotOrSpace, value);
    ReplacedClean(cleaned);
    CleanKey(MapChars(ReplaceInvalid, cleaned));
  }

  lemma PrefixedOrNot(cleaned: string, r: string)
    requires var body := MapChars(ReplaceInvalid, cleaned);
      r == if WindowsReserved(MapChars(AsciiLower, body)) then "_" + body else body
    ensures
      || (&& r != [] && r[0] == '_'
          && ReplacedFrom(cleaned, r[1..]) && WindowsReserved(MapChars(AsciiLower, r[1..])))
      || (ReplacedFrom(cleaned, r) && !WindowsReserved(MapChars(AsciiLower, r)))
  {
    var body := MapChars(ReplaceInvalid, cleaned);
    assert ReplacedFrom(cleaned, body);
    if WindowsReserved(MapChars(AsciiLower, body)) {
      assert r[1..] == body;
    }
  }

  /** The replacement keeps the ends the first trim left. */
  lemma ReplacedClean(cleaned: string)
    requires cleaned != [] && !DotOrSpace(cleaned[0]) && !DotOrSpace(cleaned[|cleaned| - 1])
    ensures CleanComponent(MapChars(ReplaceInvalid, cleaned))
    ensures Trim(Rust, MapChars(ReplaceInvalid, cleaned)) == MapChars(ReplaceInvalid, cleaned)
  {
  }

  /** A '_' in front keeps a clean component clean and makes it no
      reserved name. */
  lemma PrefixedClean(s: string)
    requires CleanComponent(s)
    ensures CleanComponent("_" + s)
    ensures !WindowsReserved(MapChars(AsciiLower, "_" + s))
  {
    var r := "_" + s;
    assert r[|r| - 1] == s[|s| - 1];
    assert MapChars(AsciiLower, r)[0] == '_';
  }

  /** On a clean component the sanitiser only prefixes a reserved name. */
  lemma SanitizeClean(s: string)
    requires CleanComponent(s)
    ensures SanitizeComponent(s) == if WindowsReserved(MapChars(AsciiLower, s)) then "_" + s else s
  {
    assert MapChars(ReplaceInvalid, s) == s;
    CleanKey(s);
  }

  /** Sanitising twice is sanitising once. */
  lemma SanitizeIdempotent(value: string)
    ensures SanitizeComponent(SanitizeComponent(value)) == SanitizeComponent(value)
  {
    SanitizeClean(SanitizeComponent(value));
  }

  // ---------------------------------------------------------------------
  // Comparison form of a name

  predicate NameChar(c: char) {
    IsAsciiLower(c) || IsAsciiDigit(c) || c == '-' || c == ' '
  }

  /** ASCII letters, digits and '-' stay; everything else becomes a space. */
  function Separate(c: char): char {
    if IsAsciiAlnum(c) || c == '-' then c else ' '
  }

  /** The name before its white space is collapsed. */
  function NameSpaced(value: string): (t: string)
    ensures All(NameChar, t)
  {
    MapChars(Separate, MapChars(LowerChar, StripAccents(value)))
  }

  lemma NameSpacedAppend(a: string, b: string)
    ensures NameSpaced(a + b) == NameSpaced(a) + NameSpaced(b)
  {
    StripAccentsAppend(a, b);
    MapCharsAppend(LowerChar, StripAccents(a), StripAccents(b));
    MapCharsAppend(Separate, MapChars(LowerChar, StripAccents(a)), MapChars(LowerChar, StripAccents(b)));
  }

  /** `normalize_name`: lower-case ASCII letters, digits and '-', in words
      separated by single spaces. */
  function NormalizeName(value: string): (r: string)
    ensures All(NameChar, r) && SingleSpaced(Rust, r)
  {
    var t := NameSpaced(value);
    SqueezeAll(Rust, t, NameChar, NameChar);
    SqueezeSingleSpaced(Rust, t);
    Squeeze(Rust, t)
  }

  /** Any other ASCII character separates words instead of vanishing: the
      two sides are normalised apart and joined by one space. */
  lemma NormalizeNameSeparates(a: string, c: char, b: string)
    requires IsAscii(c) && !IsAsciiAlnum(c) && c != '-'
    ensures NormalizeName(a + [c] + b) ==
      if NormalizeName(a) == "" then NormalizeName(b)
      else if NormalizeName(b) == "" then NormalizeName(a)
      else NormalizeName(a) + " " + NormalizeName(b)
  {
    assert NameSpaced([c]) == " ";
    NameSpacedAppend(a, [c]);
    NameSpacedAppend(a + [c], b);
    SqueezeAroundSpace(Rust, NameSpaced(a), NameSpaced(b));
  }

  /** Normalising a normalised name changes nothing. */
  lemma NormalizeNameIdempotent(value: string)
    ensures NormalizeName(NormalizeName(value)) == NormalizeName(value)
  {
    var r := NormalizeName(value);
    AllMono(NameChar, IsAscii, r);
    assert MapChars(LowerChar, r) == r;
    assert MapChars(Separate, r) == r;
    SqueezeIdempotent(Rust, NameSpaced(value));
  }

  // ---------------------------------------------------------------------
  // Word lists

  /** The words satisfying `p`, in order. */
  function Select(p: string -> bool, ws: seq<string>): (r: seq<string>)
    ensures |r| <= |ws|
    ensures forall w :: w in r <==> w in ws && p(w)
  {
    if ws == [] then []
    else
      assert ws == [ws[0]] + ws[1..];
      (if p(ws[0]) then [ws[0]] else []) + Select(p, ws[1..])
  }

  lemma SelectWordList(k: Space, p: string -> bool, ws: seq<string>)
    requires IsWordList(k, ws)
    ensures IsWordList(k, Select(p, ws))
  {
    var r := Select(p, ws);
    forall i | 0 <= i < |r| ensures r[i] != [] && SpaceFree(k, r[i]) {
      assert r[i] in r;
      var j :| 0 <= j < |ws| && ws[j] == r[i];
    }
  }

  /** Two selections that split every word between them hold the words of
      the list, each as often. */
  lemma {:induction false} SelectPartition(p: string -> bool, q: string -> bool, ws: seq<string>)
    requires forall i :: 0 <= i < |ws| ==> (p(ws[i]) <==> !q(ws[i]))
    ensures multiset(Select(p, ws) + Select(q, ws)) == multiset(ws)
  {
    if ws != [] {
      SelectPartition(p, q, ws[1..]);
      assert ws == [ws[0]] + ws[1..];
    }
  }

  predicate Numeric(w: string) { All(IsAsciiDigit, w) }

  predicate NotNumeric(w: string) { !Numeric(w) }

  /** `remove_numeric_tokens`: the words that are not all digits, joined by
      single spaces. */
  function RemoveNumericTokens(value: string): (r: string)
    ensures SingleSpaced(Rust, r)
    ensures Words(Rust, r) == Select(NotNumeric, Words(Rust, value))
  {
    var ws := Select(NotNumeric, Words(Rust, value));
    SelectWordList(Rust, NotNumeric, Words(Rust, value));
    JoinSingleSpaced(Rust, ws);
    WordsOfJoin(Rust, ws);
    Join(ws, " ")
  }

  /** A word of one byte. */
  predicate IsInitial(w: string) { Utf8Length(w) == 1 }

  predicate IsLonger(w: string) { Utf8Length(w) > 1 }

  /** `reorder_initials`: the words longer than one byte, then the one-byte
      words, each group in its original order; None unless both groups
      have a word. */
  function ReorderInitials(value: string): (r: Option<string>)
    ensures r.Some? <==>
      (exists w :: w in Words(Rust, value) && IsInitial(w)) && (exists w :: w in Words(Rust, value) && IsLonger(w))
    ensures r.Some? ==>
      Words(Rust, r.value) == Select(IsLonger, Words(Rust, value)) + Select(IsInitial, Words(Rust, value))
  {
    var tokens := Words(Rust, value);
    if tokens == [] then None
    else
      var initials := Select(IsInitial, tokens);
      var others := Select(IsLonger, tokens);
      if initials == [] || others == [] then
        assert initials == [] ==> forall w :: w in tokens ==> !IsInitial(w);
        assert others == [] ==> forall w :: w in tokens ==> !IsLonger(w);
        None
      else
        assert initials[0] in tokens && others[0] in tokens;
        SelectWordList(Rust, IsInitial, tokens);
        SelectWordList(Rust, IsLonger, tokens);
        WordsOfJoin(Rust, others + initials);
        Some(Join(others + initials, " "))
  }

  /** The reordering keeps every word, each as often. */
  lemma ReorderPermutes(value: string)
    requires ReorderInitials(value).Some?
    ensures multiset(Words(Rust, ReorderInitials(value).value)) == multiset(Words(Rust, value))
  {
    var ws := Words(Rust, value);
    forall i | 0 <= i < |ws| ensures IsLonger(ws[i]) <==> !IsInitial(ws[i]) {
      assert |ws[i]| >= 1;
    }
    SelectPartition(IsLonger, IsInitial, ws);
  }

  // ---------------------------------------------------------------------
  // Capitalisation

  lemma UpperCharsNotSpace(c: char)
    requires !IsSpace(Rust, c)
    ensures SpaceFree(Rust, UpperChars(c))
  {
  }

  /** First character upper-cased, the rest lower-cased. */
  function CapitalizeWord(w: string): (r: string)
    requires w != []
    ensures r != []
    ensures SpaceFree(Rust, w) ==> SpaceFree(Rust, r)
  {
    var head, tail := UpperChars(w[0]), MapChars(LowerChar, w[1..]);
    assert SpaceFree(Rust, w) ==> SpaceFree(Rust, head + tail) by {
      if SpaceFree(Rust, w) {
        UpperCharsNotSpace(w[0]);
        forall i | 0 <= i < |tail| ensures !IsSpace(Rust, tail[i]) {
          assert w[1..][i] == w[i + 1];
        }
      }
    }
    head + tail
  }

  function Capitalized(ws: seq<string>): (cs: seq<string>)
    requires IsWordList(Rust, ws)
    ensures IsWordList(Rust, cs) && |cs| == |ws|
  {
    seq(|ws|, i requires 0 <= i < |ws| => CapitalizeWord(ws[i]))
  }

  /** `capitalize_words`: each word capitalised, joined by single spaces. */
  function CapitalizeWords(value: string): (r: string)
    ensures SingleSpaced(Rust, r)
    ensures Words(Rust, r) == Capitalized(Words(Rust, value))
  {
    var cs := Capitalized(Words(Rust, value));
    JoinSingleSpaced(Rust, cs);
    WordsOfJoin(Rust, cs);
    Join(cs, " ")
  }

  lemma CapitalizeWordTwice(w: string)
    requires w != [] && IsAscii(w[0])
    ensures CapitalizeWord(CapitalizeWord(w)) == CapitalizeWord(w)
  {
    var tail := MapChars(LowerChar, w[1..]);
    HeadTail(UpperChars(w[0]), tail);
    assert MapChars(LowerChar, tail) == tail;
  }

  /** On ASCII text capitalising twice is capitalising once. */
  lemma CapitalizeWordsIdempotent(value: string)
    requires All(IsAscii, value)
    ensures CapitalizeWords(CapitalizeWords(value)) == CapitalizeWords(value)
  {
    var ws := Words(Rust, value);
    WordsAll(Rust, value, IsAscii);
    forall i | 0 <= i < |ws| ensures CapitalizeWord(CapitalizeWord(ws[i])) == CapitalizeWord(ws[i]) {
      CapitalizeWordTwice(ws[i]);
    }
    assert Capitalized(Capitalized(ws)) == Capitalized(ws);
  }

  // ---------------------------------------------------------------------
  // Display form "Last, First"

  /** The apostrophe-like characters become '\'', '_' and '-' a space. */
  function DisplayChar(c: char): char {
    if c == '\U{2019}' || c == '`' || c == '\U{00B4}' then '\''
    else if c == '_' || c == '-' then ' '
    else c
  }

  /** The first steps of `normalize_author_display` as written: accents
      stripped, then the replacements, then white space collapsed.  The
      compatibility decomposition has already turned U+00B4 into a space
      and a combining mark, so its replacement never applies. */
  function DisplayTextAsWritten(name: string): string {
    Squeeze(Rust, MapChars(DisplayChar, StripAccents(name)))
  }

  /** The same steps with the replacements made before the accents are
      stripped, so that U+00B4 reads as an apostrophe as intended. */
  function DisplayText(name: string): string {
    Squeeze(Rust, StripAccents(MapChars(DisplayChar, name)))
  }

  /** As written, the acute accent separates words like a space. */
  lemma AcuteSeparatesAsWritten(a: string, b: string)
    ensures DisplayTextAsWritten(a + "\U{00B4}" + b) == DisplayTextAsWritten(a + " " + b)
  {
    NfkdSingle('\U{00B4}');
    assert StripAccents("\U{00B4}") == " ";
    StripAccentsAppend(a, "\U{00B4}");
    StripAccentsAppend(a + "\U{00B4}", b);
    StripAccentsAppend(a, " ");
    StripAccentsAppend(a + " ", b);
  }

  /** Corrected, the acute accent reads as an apostrophe. */
  lemma AcuteAsApostrophe(a: string, b: string)
    ensures DisplayText(a + "\U{00B4}" + b) == DisplayText(a + "'" + b)
  {
    MapCharsAppend(DisplayChar, a, "\U{00B4}");
    MapCharsAppend(DisplayChar, a + "\U{00B4}", b);
    MapCharsAppend(DisplayChar, a, "'");
    MapCharsAppend(DisplayChar, a + "'", b);
    assert MapChars(DisplayChar, "\U{00B4}") == MapChars(DisplayChar, "'");
    assert MapChars(DisplayChar, a + "\U{00B4}" + b) == MapChars(DisplayChar, a + "'" + b);
  }

  /** No character of a decomposition is one the display replacements
      change, unless the character decomposes to itself. */
  lemma DecompositionUnchanged(c: char)
    requires DisplayChar(c) == c
    ensures forall i :: 0 <= i < |CompatDecompose(c)| ==> DisplayChar(CompatDecompose(c)[i]) == CompatDecompose(c)[i]
  {
  }

  /** For one character other than U+00B4, the replacements and the
      stripping of accents can be taken in either order. */
  lemma DisplayCommutes(c: char)
    requires c != '\U{00B4}'
    ensures StripAccents(MapChars(DisplayChar, [c])) == MapChars(DisplayChar, StripAccents([c]))
  {
    NfkdSingle(c);
    var d := DisplayChar(c);
    assert MapChars(DisplayChar, [c]) == [d];
    if d != c {
      assert CompatDecompose(c) == [c];
      assert All(IsAscii, [d]);
      FilterSingle(NotMark, c);
    } else {
      DecompositionUnchanged(c);
      var t := StripAccents([c]);
      assert forall i :: 0 <= i < |t| ==> t[i] in CompatDecompose(c);
      assert MapChars(DisplayChar, t) == t;
    }
  }

  /** Without U+00B4 the order does not matter for a whole text. */
  lemma {:induction false} DisplayCommutesText(s: string)
    requires '\U{00B4}' !in s
    ensures StripAccents(MapChars(DisplayChar, s)) == MapChars(DisplayChar, StripAccents(s))
    decreases |s|
  {
    if s != [] {
      var h, t := [s[0]], s[1..];
      assert s == h + t;
      DisplayCommutes(s[0]);
      DisplayCommutesText(t);
      MapCharsAppend(DisplayChar, h, t);
      StripAccentsAppend(MapChars(DisplayChar, h), MapChars(DisplayChar, t));
      StripAccentsAppend(h, t);
      MapCharsAppend(DisplayChar, StripAccents(h), StripAccents(t));
    } else {
      assert MapChars(DisplayChar, s) == s;
    }
  }

  /** The correction only matters for U+00B4: on every other text the
      display text as written and corrected coincide. */
  lemma DisplayTextAgrees(name: string)
    requires '\U{00B4}' !in name
    ensures DisplayTextAsWritten(name) == DisplayText(name)
  {
    DisplayCommutesText(name);
  }

  /** ASCII letters present and all of them upper case. */
  predicate Shouted(s: string) {
    && (exists i :: 0 <= i < |s| && IsAsciiAlpha(s[i]))
    && (forall i :: 0 <= i < |s| && IsAsciiAlpha(s[i]) ==> IsAsciiUpper(s[i]))
  }

  /** The display text, lower-cased when it is written in capitals. */
  function DisplayBase(name: string): (base: string)
    ensures Shouted(DisplayText(name)) ==> All(NotAsciiUpper, base)
  {
    var s := DisplayText(name);
    if Shouted(s) then MapChars(LowerChar, s) else s
  }

  predicate NotAsciiUpper(c: char) { !IsAsciiUpper(c) }

  /** The (first, last) parts: around the first comma, else the last word
      against the others, else the only word as the first part. */
  function SplitDisplayName(base: string): (parts: (string, string))
  {
    match IndexOf(base, ',')
    case Some(idx) => (Trim(Rust, base[idx + 1..]), Trim(Rust, base[..idx]))
    case None =>
      var tokens := Words(Rust, base);
      if |tokens| >= 2 then (Join(tokens[..|tokens| - 1], " "), tokens[|tokens| - 1])
      else (if tokens == [] then "" else tokens[0], "")
  }

  /** Without a comma no word is lost or moved: the first part holds all
      words but the last, the last part at most that one. */
  lemma SplitDisplayNameKeepsWords(base: string)
    requires ',' !in base
    ensures Words(Rust, SplitDisplayName(base).0) + Words(Rust, SplitDisplayName(base).1) == Words(Rust, base)
    ensures |Words(Rust, SplitDisplayName(base).1)| <= 1
  {
    var tokens := Words(Rust, base);
    WordsOfJoin(Rust, []);
    if |tokens| >= 2 {
      var init, last := tokens[..|tokens| - 1], tokens[|tokens| - 1];
      WordsOfJoin(Rust, init);
      WordsOfJoin(Rust, [last]);
      InitLast(tokens);
    } else if |tokens| == 1 {
      WordsOfJoin(Rust, tokens);
    }
  }

  predicate IsComma(c: char) { c == ',' }

  /** `normalize_author_display`.  The value trimmed of white space and
      commas always keeps the first character of the non-empty last name, so
      the fallback of the original for an empty value never applies and is
      left out. */
  function NormalizeAuthorDisplay(name: string): (r: string)
    ensures Trim(Rust, name) == [] ==> r == "_"
  {
    if Trim(Rust, name) == [] then "_"
    else
      var parts := SplitDisplayName(DisplayBase(name));
      var firstCap, lastCap := CapitalizeWords(parts.0), CapitalizeWords(parts.1);
      if lastCap != [] then TrimBy(IsComma, Trim(Rust, lastCap + ", " + firstCap))
      else firstCap
  }

  // ---------------------------------------------------------------------
  // Candidate spellings

  /** `Regex::replace_all` of "open, one or more characters other than
      close, close" by `by`: an opening character followed, after at least
      one character, by a closing one is replaced with everything up to the
      first closing one. */
  function ReplaceEnclosed(open: char, close: char, repl: string, s: string): (r: string)
    ensures open !in s ==> r == s
    decreases |s|
  {
    if s == [] then []
    else if s[0] == open then
      match IndexOf(s[1..], close)
      case Some(j) =>
        if j >= 1 then repl + ReplaceEnclosed(open, close, repl, s[j + 2..])
        else [s[0]] + ReplaceEnclosed(open, close, repl, s[1..])
      case None => [s[0]] + ReplaceEnclosed(open, close, repl, s[1..])
    else
      assert open !in s ==> open !in s[1..];
      assert s == [s[0]] + s[1..];
      [s[0]] + ReplaceEnclosed(open, close, repl, s[1..])
  }

  /** Text without an opening character passes through unchanged in front
      of whatever follows. */
  lemma {:induction false} ReplaceEnclosedPrefix(open: char, close: char, repl: string, a: string, s: string)
    requires open !in a
    ensures ReplaceEnclosed(open, close, repl, a + s) == a + ReplaceEnclosed(open, close, repl, s)
    decreases |a|
  {
    if a != [] {
      var t := a + s;
      assert t[0] == a[0] && t[0] != open;
      assert t[1..] == a[1..] + s;
      assert ReplaceEnclosed(open, close, repl, t) == [t[0]] + ReplaceEnclosed(open, close, repl, t[1..]);
      ReplaceEnclosedPrefix(open, close, repl, a[1..], s);
      AppendAssoc([a[0]], a[1..], ReplaceEnclosed(open, close, repl, s));
      assert [a[0]] + a[1..] == a;
    } else {
      assert a + s == s;
    }
  }

  /** At an opening character that a non-empty run and a closing
      character follow, the whole is replaced. */
  lemma EnclosedAtHead(open: char, close: char, repl: string, m: string, b: string)
    requires m != [] && close !in m
    ensures ReplaceEnclosed(open, close, repl, [open] + m + [close] + b) == repl + ReplaceEnclosed(open, close, repl, b)
  {
    var s := [open] + m + [close] + b;
    assert s[0] == open;
    assert s[1..] == m + [close] + b;
    IndexOfAfter(m, close, b);
    assert s[|m| + 2..] == b;
  }

  /** At an opening character with no closing one after it, or a closing
      one right after it, the opening character is kept. */
  lemma OpenAtHead(open: char, close: char, repl: string, b: string)
    requires close !in b || (b != [] && b[0] == close)
    ensures ReplaceEnclosed(open, close, repl, [open] + b) == [open] + ReplaceEnclosed(open, close, repl, b)
  {
    var s := [open] + b;
    assert s[0] == open && s[1..] == b;
    if close in b {
      assert IndexOf(b, close) == Some(0);
    }
  }

  /** The leftmost opening character, one or more characters without a
      closing one, and a closing character are replaced as a whole. */
  lemma ReplaceEnclosedRun(open: char, close: char, repl: string, a: string, m: string, b: string)
    requires open !in a && m != [] && close !in m
    ensures ReplaceEnclosed(open, close, repl, a + [open] + m + [close] + b)
         == a + repl + ReplaceEnclosed(open, close, repl, b)
  {
    var s := [open] + m + [close] + b;
    assert a + [open] + m + [close] + b == a + s;
    ReplaceEnclosedPrefix(open, close, repl, a, s);
    EnclosedAtHead(open, close, repl, m, b);
    AppendAssoc(a, repl, ReplaceEnclosed(open, close, repl, b));
  }

  /** An opening character with no closing one after it, or with a closing
      one right after it, is kept, and the text goes on after it. */
  lemma ReplaceEnclosedOpenKept(open: char, close: char, repl: string, a: string, b: string)
    requires open !in a
    requires close !in b || (b != [] && b[0] == close)
    ensures ReplaceEnclosed(open, close, repl, a + [open] + b)
         == a + [open] + ReplaceEnclosed(open, close, repl, b)
  {
    var s := [open] + b;
    assert a + [open] + b == a + s;
    ReplaceEnclosedPrefix(open, close, repl, a, s);
    OpenAtHead(open, close, repl, b);
    AppendAssoc(a, [open], ReplaceEnclosed(open, close, repl, b));
  }

  /** One bracketed run, and no parenthesis: the run becomes a space. */
  lemma StripEnclosuresBracket(a: string, m: string, b: string)
    requires '[' !in a && '[' !in b && m != [] && ']' !in m
    requires '(' !in a && '(' !in m && '(' !in b
    ensures StripEnclosures(a + ['['] + m + [']'] + b) == a + " " + b
  {
    ReplaceEnclosedRun('[', ']', " ", a, m, b);
    assert '(' !in a + " " + b;
  }

  /** No bracket, one parenthesised run: the run becomes a space. */
  lemma StripEnclosuresParen(a: string, m: string, b: string)
    requires '[' !in a && '[' !in m && '[' !in b
    requires '(' !in a && m != [] && ')' !in m
    ensures StripEnclosures(a + ['('] + m + [')'] + b)
         == a + " " + ReplaceEnclosed('(', ')', " ", b)
  {
    assert '[' !in a + ['('] + m + [')'] + b;
    ReplaceEnclosedRun('(', ')', " ", a, m, b);
  }

  /** `strip_enclosures`: bracketed, then parenthesised text replaced by a space. */
  function StripEnclosures(value: string): (r: string)
    ensures '[' !in value && '(' !in value ==> r == value
  {
    ReplaceEnclosed('(', ')', " ", ReplaceEnclosed('[', ']', " ", value))
  }

  /** The starting spellings: the trimmed name, then each of its enclosure-free
      form, its form without numbers and its initials moved last, when
      non-empty and new. */
  function CandidateBase(trimmed: string): (base: seq<string>)
    ensures base != [] && base[0] == trimmed
    ensures Distinct(base)
  {
    var stripped := StripEnclosures(trimmed);
    var b1 := if stripped != trimmed then [trimmed, stripped] else [trimmed];
    var digitsRemoved := RemoveNumericTokens(stripped);
    var reordered :=
      match ReorderInitials(digitsRemoved)
      case Some(x) => x
      case None => match ReorderInitials(stripped) case Some(x) => x case None => "";
    PushIfNew(PushIfNew(b1, digitsRemoved), reordered)
  }

  /** `x` appended when non-empty and not yet present. */
  function PushIfNew(b: seq<string>, x: string): (r: seq<string>)
    requires Distinct(b)
    ensures Distinct(r) && b <= r
    ensures x in r <==> x != [] || x in b
  {
    if x != [] && x !in b then DistinctSnoc(b, x); b + [x] else b
  }

  /** "Last, First" turned round: the text after the first comma, a space,
      the text before it, trimmed; None without a comma. */
  function SwapAtComma(c: string): (r: Option<string>)
    ensures r.None? <==> ',' !in c
  {
    match IndexOf(c, ',')
    case None => None
    case Some(i) => Some(Trim(Rust, Trim(Rust, c[i + 1..]) + " " + Trim(Rust, c[..i])))
  }

  /** `x` is a base spelling or the non-empty turned-round form of one. */
  predicate Produced(base: seq<string>, x: string) {
    x in base || (x != [] && exists c :: c in base && SwapAtComma(c) == Some(x))
  }

  function AddNew(rs: seq<string>, x: string): (r: seq<string>)
    ensures forall y :: y in r <==> y in rs || y == x
    ensures Distinct(rs) ==> Distinct(r)
    ensures rs <= r
  {
    if x in rs then rs
    else
      assert Distinct(rs) ==> Distinct(rs + [x]) by {
        if Distinct(rs) { DistinctSnoc(rs, x); }
      }
      rs + [x]
  }

  /** One base spelling `c` handled: kept when new, then its non-empty
      turned-round form, kept when new. */
  function Step(rs: seq<string>, c: string): (out: seq<string>)
    requires Distinct(rs)
    ensures Distinct(out) && rs <= out
    ensures forall x :: x in out <==> x in rs || x == c || (x != [] && SwapAtComma(c) == Some(x))
  {
    var rs1 := AddNew(rs, c);
    match SwapAtComma(c)
    case Some(w) => if w != [] then AddNew(rs1, w) else rs1
    case None => rs1
  }

  lemma ProducedSnoc(init: seq<string>, c: string, x: string)
    ensures Produced(init + [c], x) <==> Produced(init, x) || x == c || (x != [] && SwapAtComma(c) == Some(x))
  {
    assert forall d :: d in init + [c] <==> d in init || d == c;
  }

  /** Each base spelling in turn, by `Step`. */
  function Expand(base: seq<string>): (rs: seq<string>)
    ensures Distinct(rs)
    ensures forall x :: x in rs <==> Produced(base, x)
    ensures base != [] ==> rs != [] && rs[0] == base[0]
  {
    if base == [] then []
    else
      var init, c := base[..|base| - 1], base[|base| - 1];
      InitLast(base);
      var rs := Step(Expand(init), c);
      assert forall x :: x in rs <==> Produced(base, x) by {
        forall x ensures x in rs <==> Produced(base, x) {
          ProducedSnoc(init, c, x);
        }
      }
      assert init != [] ==> base[0] == init[0];
      rs
  }

  lemma ExpandStep(base: seq<string>, i: nat)
    requires i < |base|
    ensures Expand(base[..i + 1]) == Step(Expand(base[..i]), base[i])
  {
    TakeTake(base, i);
  }

  /** What `generate_candidates` returns for `name`. */
  function Candidates(name: string): seq<string> {
    var trimmed := Trim(Rust, name);
    if trimmed == [] then [] else Expand(CandidateBase(trimmed))
  }

  /** Nothing for a blank name; otherwise the trimmed name first, no
      repeats, and every base spelling and non-empty turned-round form. */
  lemma CandidatesShape(name: string)
    ensures Trim(Rust, name) == [] <==> Candidates(name) == []
    ensures Candidates(name) != [] ==> Candidates(name)[0] == Trim(Rust, name)
    ensures Distinct(Candidates(name))
    ensures Trim(Rust, name) != [] ==>
      forall x :: x in Candidates(name) <==> Produced(CandidateBase(Trim(Rust, name)), x)
  {
  }

  /** `generate_candidates`. */
  method GenerateCandidates(name: string) returns (results: seq<string>)
    ensures results == Candidates(name)
  {
    results := [];
    var trimmed := Trim(Rust, name);
    if trimmed == [] {
      return;
    }
    var base := CandidateBase(trimmed);
    var seen: set<string> := {};
    for i := 0 to |base|
      invariant results == Expand(base[..i])
      invariant seen == Elems(results)
    {
      var candidate := base[i];
      ExpandStep(base, i);
      ghost var before := results;
      if candidate !in seen {
        ElemsSnoc(results, candidate);
        seen := seen + {candidate};
        results := results + [candidate];
      }
      assert results == AddNew(before, candidate);
      match SwapAtComma(candidate)
      case Some(swapped) =>
        if swapped != [] && swapped !in seen {
          ElemsSnoc(results, swapped);
          seen := seen + {swapped};
          results := results + [swapped];
        }
      case None =>
    }
    TakeAll(base);
  }

  /** The comparison forms of the candidates. */
  function NormalizedNames(cs: seq<string>): (ns: seq<string>)
    ensures |ns| == |cs|
    ensures forall i :: 0 <= i < |cs| ==> ns[i] == NormalizeName(cs[i])
  {
    if cs == [] then []
    else
      var init := cs[..|cs| - 1];
      assert forall i :: 0 <= i < |init| ==> init[i] == cs[i];
      NormalizedNames(init) + [NormalizeName(cs[|cs| - 1])]
  }

  lemma NormalizedNamesSnoc(cs: seq<string>, c: string)
    ensures NormalizedNames(cs + [c]) == NormalizedNames(cs) + [NormalizeName(c)]
  {
    InitOfSnoc(cs, c);
  }

  /** What `normalized_variants` returns for the candidate list `cs`. */
  function Variants(cs: seq<string>): seq<string> {
    Dedup(NonEmpty(NormalizedNames(cs)))
  }

  lemma VariantsSnoc(cs: seq<string>, c: string)
    ensures Variants(cs + [c]) ==
      if NormalizeName(c) == [] || NormalizeName(c) in Variants(cs) then Variants(cs)
      else Variants(cs) + [NormalizeName(c)]
  {
    var n := NormalizeName(c);
    NormalizedNamesSnoc(cs, c);
    NonEmptyAppend(NormalizedNames(cs), [n]);
    NonEmptyCons(n, []);
    if n == [] {
      assert NonEmpty(NormalizedNames(cs)) + [] == NonEmpty(NormalizedNames(cs));
    } else {
      DedupSnoc(NonEmpty(NormalizedNames(cs)), n);
    }
  }

  /** No repeats, no empty string, and exactly the non-empty comparison
      forms of the candidates. */
  lemma VariantsShape(cs: seq<string>)
    ensures Distinct(Variants(cs))
    ensures forall x :: x in Variants(cs) ==> x != []
    ensures forall i :: 0 <= i < |cs| && NormalizeName(cs[i]) != [] ==> NormalizeName(cs[i]) in Variants(cs)
    ensures forall x :: x in Variants(cs) ==> exists i :: 0 <= i < |cs| && NormalizeName(cs[i]) == x
  {
    var ns := NormalizedNames(cs);
    var ne := NonEmpty(ns);
    var vs := Dedup(ne);
    forall x | x in vs ensures x != [] && exists i :: 0 <= i < |cs| && NormalizeName(cs[i]) == x {
      assert x in ne;
      var j :| 0 <= j < |ne| && ne[j] == x;
      var i :| 0 <= i < |ns| && ns[i] == ne[j];
    }
    forall i | 0 <= i < |cs| && ns[i] != [] ensures ns[i] in vs {
      NonEmptyMember(ns, i);
    }
  }

  /** Later candidates never disturb the variants of earlier ones. */
  lemma {:induction false} VariantsPrefix(cs: seq<string>, ds: seq<string>)
    ensures Variants(cs) <= Variants(cs + ds)
    decreases |ds|
  {
    if ds == [] {
      AppendNil(cs);
    } else {
      var init, d := ds[..|ds| - 1], ds[|ds| - 1];
      VariantsPrefix(cs, init);
      InitLast(ds);
      AppendAssoc(cs, init, [d]);
      VariantsSnoc(cs + init, d);
      PrefixTrans(Variants(cs), Variants(cs + init), Variants(cs + ds));
    }
  }

  lemma {:induction false} NonEmptyMember(ns: seq<string>, i: nat)
    requires i < |ns| && ns[i] != []
    ensures ns[i] in NonEmpty(ns)
  {
    NonEmptyCons(ns[0], ns[1..]);
    assert ns == [ns[0]] + ns[1..];
    if i > 0 {
      NonEmptyMember(ns[1..], i - 1);
    }
  }

  /** `normalized_variants`. */
  method NormalizedVariants(name: string) returns (variants: seq<string>)
    ensures variants == Variants(Candidates(name))
  {
    var candidates := GenerateCandidates(name);
    var seen: set<string> := {};
    variants := [];
    for i := 0 to |candidates|
      invariant variants == Variants(candidates[..i])
      invariant seen == Elems(variants)
    {
      var normalized := NormalizeName(candidates[i]);
      TakeSnoc(candidates, i);
      VariantsSnoc(candidates[..i], candidates[i]);
      if normalized != [] && normalized !in seen {
        ElemsSnoc(variants, normalized);
        seen := seen + {normalized};
        variants := variants + [normalized];
      }
    }
    TakeAll(candidates);
  }

  // ---------------------------------------------------------------------
  // Longest common subsequence

  newtype Byte = b: int | 0 <= b < 256

  /** Length of a longest common subsequence, by the recurrence on the last
      elements. */
  function Lcs<T(==)>(a: seq<T>, b: seq<T>): (n: nat)
    ensures n <= |a| && n <= |b|
  {
    if a == [] || b == [] then 0
    else
      var a', b' := a[..|a| - 1], b[..|b| - 1];
      if a[|a| - 1] == b[|b| - 1] then Lcs(a', b') + 1
      else Max(Lcs(a', b), Lcs(a, b'))
  }

  function Max(x: nat, y: nat): nat { if x >= y then x else y }

  /** `x` is a subsequence of `s`: its elements occur in `s` in order. */
  predicate IsSubseq<T(==)>(x: seq<T>, s: seq<T>)
    decreases |s|
  {
    x == [] ||
    (s != [] &&
      (IsSubseq(x, s[..|s| - 1]) ||
       (x[|x| - 1] == s[|s| - 1] && IsSubseq(x[..|x| - 1], s[..|s| - 1]))))
  }

  /** A common subsequence of the length `Lcs` gives. */
  function LcsWitness<T(==)>(a: seq<T>, b: seq<T>): (w: seq<T>)
    ensures |w| == Lcs(a, b)
    ensures IsSubseq(w, a) && IsSubseq(w, b)
  {
    if a == [] || b == [] then []
    else
      var a', b' := a[..|a| - 1], b[..|b| - 1];
      if a[|a| - 1] == b[|b| - 1] then
        var w' := LcsWitness(a', b');
        var w := w' + [a[|a| - 1]];
        assert w[..|w| - 1] == w';
        w
      else if Lcs(a', b) >= Lcs(a, b') then LcsWitness(a', b)
      else LcsWitness(a, b')
  }

  /** Dropping the last element of `a` never lengthens the LCS, and
      dropping the last of `b` shortens it by at most one. */
  lemma {:induction false} LcsDrop<T>(a: seq<T>, b: seq<T>)
    ensures a != [] ==> Lcs(a[..|a| - 1], b) <= Lcs(a, b)
    ensures b != [] ==> Lcs(a, b) <= Lcs(a, b[..|b| - 1]) + 1
    decreases |a| + |b|
  {
    if a != [] && b != [] {
      var a', b' := a[..|a| - 1], b[..|b| - 1];
      LcsDrop(a, b');
      LcsDrop(a', b);
      if a[|a| - 1] == b[|b| - 1] {
        LcsDrop(a', b');
      }
    }
  }

  /** The LCS does not depend on the order of its arguments. */
  lemma {:induction false} LcsSymmetric<T>(a: seq<T>, b: seq<T>)
    ensures Lcs(a, b) == Lcs(b, a)
    decreases |a| + |b|
  {
    if a != [] && b != [] {
      var a', b' := a[..|a| - 1], b[..|b| - 1];
      LcsSymmetric(a', b');
      LcsSymmetric(a', b);
      LcsSymmetric(a, b');
    }
  }

  /** Dropping the last element of `b` never lengthens the LCS. */
  lemma LcsDropRight<T>(a: seq<T>, b: seq<T>)
    requires b != []
    ensures Lcs(a, b[..|b| - 1]) <= Lcs(a, b)
  {
    LcsSymmetric(a, b[..|b| - 1]);
    LcsDrop(b, a);
    LcsSymmetric(b, a);
  }

  /** No common subsequence is longer than `Lcs`. */
  lemma {:induction false} LcsUpperBound<T>(x: seq<T>, a: seq<T>, b: seq<T>)
    requires IsSubseq(x, a) && IsSubseq(x, b)
    ensures |x| <= Lcs(a, b)
    decreases |a| + |b|
  {
    if x != [] {
      var a', b', x' := a[..|a| - 1], b[..|b| - 1], x[..|x| - 1];
      if IsSubseq(x, a') {
        LcsUpperBound(x, a', b);
        LcsDrop(a, b);
      } else if IsSubseq(x, b') {
        LcsUpperBound(x, a, b');
        LcsDropRight(a, b);
      } else {
        LcsUpperBound(x', a', b');
      }
    }
  }

  /** One cell of the table from its three neighbours. */
  lemma LcsStep<T>(a: seq<T>, b: seq<T>, i: nat, j: nat)
    requires i < |a| && j < |b|
    ensures Lcs(a[..i + 1], b[..j + 1]) ==
      if a[i] == b[j] then Lcs(a[..i], b[..j]) + 1
      else Max(Lcs(a[..i], b[..j + 1]), Lcs(a[..i + 1], b[..j]))
  {
    assert a[..i + 1][..i] == a[..i];
    assert b[..j + 1][..j] == b[..j];
  }

  /** `lcs_length`: the table filled row by row in two buffers that trade
      places after each row. */
  method LcsLength(a: seq<Byte>, b: seq<Byte>) returns (r: nat)
    ensures r == Lcs(a, b)
  {
    var prev := new nat[|b| + 1](_ => 0);
    var curr := new nat[|b| + 1](_ => 0);
    for i := 0 to |a|
      invariant fresh(prev) && fresh(curr) && prev != curr
      invariant prev.Length == |b| + 1 && curr.Length == |b| + 1
      invariant curr[0] == 0
      invariant forall j :: 0 <= j <= |b| ==> prev[j] == Lcs(a[..i], b[..j])
    {
      ghost var row := a[..i + 1];
      for j := 0 to |b|
        invariant curr[0] == 0
        invariant forall k :: 0 <= k <= j ==> curr[k] == Lcs(row, b[..k])
        modifies curr
      {
        LcsStep(a, b, i, j);
        curr[j + 1] := if a[i] == b[j] then prev[j] + 1 else Max(prev[j + 1], curr[j]);
      }
      prev, curr := curr, prev;
    }
    TakeAll(a);
    TakeAll(b);
    r := prev[|b|];
  }
}
