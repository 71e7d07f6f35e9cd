/**
  String operations shared by the tools: prefix and substring tests,
  removal of every occurrence of a pattern, filtering, trimming, splitting on
  white space or on a separator, and joining.  Strings are sequences of
  Unicode scalar values.
 */
module Text {
  import opened Unicode
  import opened Wrappers
  import opened Lists

  /** `s` begins with `p`. */
  predicate IsPrefix(p: string, s: string) {
    |p| <= |s| && s[..|p|] == p
  }

  /** `needle` occurs in `hay`: Python's `in`, SQL's `instr(...) > 0`, Rust's `contains`. */
  predicate Contains(hay: string, needle: string)
    decreases |hay|
  {
    IsPrefix(needle, hay) || (hay != [] && Contains(hay[1..], needle))
  }

  /** Python `s.replace(pat, "")`: occurrences are removed left to right,
      without overlap, wherever they stand. */
  function RemoveAll(s: string, pat: string): (r: string)
    requires pat != []
    ensures |r| <= |s|
    decreases |s|
  {
    if s == [] then []
    else if IsPrefix(pat, s) then RemoveAll(s[|pat|..], pat)
    else [s[0]] + RemoveAll(s[1..], pat)
  }

  lemma {:induction false} ContainsLength(hay: string, needle: string)
    requires Contains(hay, needle)
    ensures |needle| <= |hay|
    decreases |hay|
  {
    if !IsPrefix(needle, hay) {
      ContainsLength(hay[1..], needle);
    }
  }

  /** An occurrence in `a` is an occurrence in `a + b`. */
  lemma {:induction false} ContainsAppendRight(a: string, b: string, needle: string)
    requires Contains(a, needle)
    ensures Contains(a + b, needle)
    decreases |a|
  {
    if IsPrefix(needle, a) {
      assert (a + b)[..|needle|] == a[..|needle|];
    } else {
      assert (a + b)[1..] == a[1..] + b;
      ContainsAppendRight(a[1..], b, needle);
    }
  }

  /** An occurrence in `b` is an occurrence in `a + b`. */
  lemma {:induction false} ContainsAppendLeft(a: string, b: string, needle: string)
    requires Contains(b, needle)
    ensures Contains(a + b, needle)
    decreases |a|
  {
    if a == [] {
      assert a + b == b;
    } else {
      assert (a + b)[1..] == a[1..] + b;
      ContainsAppendLeft(a[1..], b, needle);
    }
  }

  /** A text free of `sep` cannot hold the start of a needle that begins with `sep`. */
  lemma {:induction false} ContainsSkip(f: string, rest: string, needle: string, sep: char)
    requires sep !in f
    requires needle != [] && needle[0] == sep
    ensures Contains(f + rest, needle) <==> Contains(rest, needle)
    decreases |f|
  {
    if f == [] {
      assert f + rest == rest;
    } else {
      assert (f + rest)[0] == f[0];
      assert !IsPrefix(needle, f + rest);
      assert (f + rest)[1..] == f[1..] + rest;
      ContainsSkip(f[1..], rest, needle, sep);
    }
  }

  /** `sep + x + sep` starts `sep + f + rest` (where `rest` starts with `sep`)
      exactly when `x == f`, provided neither `x` nor `f` holds `sep`. */
  lemma {:induction false} FieldPrefix(x: string, f: string, rest: string, sep: char)
    requires sep !in x && sep !in f
    requires rest != [] && rest[0] == sep
    ensures IsPrefix([sep] + x + [sep], [sep] + f + rest) <==> x == f
  {
    var needle, hay := [sep] + x + [sep], [sep] + f + rest;
    if x == f {
      assert hay[..|needle|] == needle;
    }
    if IsPrefix(needle, hay) {
      var more := hay[|needle|..];
      assert hay[1..] == f + [sep] + rest[1..];
      assert hay[1..] == x + [sep] + more;
      IndexOfAfter(f, sep, rest[1..]);
      IndexOfAfter(x, sep, more);
      assert x == hay[1..][..|x|] == f;
    }
  }

  /** The comma-wrapped membership test of SQL (`instr(',' || list || ',',
      ',' || x || ',') > 0`) is membership among the fields of the list. */
  lemma {:induction false} WrappedMember(fs: seq<string>, x: string, sep: char)
    requires |fs| >= 1
    requires forall i :: 0 <= i < |fs| ==> sep !in fs[i]
    requires sep !in x
    ensures Contains([sep] + Join(fs, [sep]) + [sep], [sep] + x + [sep]) <==> x in fs
    decreases |fs|
  {
    var needle := [sep] + x + [sep];
    var f := fs[0];
    var hay := [sep] + Join(fs, [sep]) + [sep];
    var tail := if |fs| == 1 then [sep] else [sep] + Join(fs[1..], [sep]) + [sep];
    assert hay == [sep] + f + tail by {
      if |fs| > 1 { JoinCons(f, fs[1..], [sep]); assert fs == [f] + fs[1..]; }
    }
    FieldPrefix(x, f, tail, sep);
    assert hay[1..] == f + tail;
    ContainsSkip(f, tail, needle, sep);
    if |fs| == 1 {
      if Contains(tail, needle) { ContainsLength(tail, needle); }
    } else {
      WrappedMember(fs[1..], x, sep);
      assert fs == [f] + fs[1..];
    }
  }

  /** Every character of `s` satisfies `p`. */
  predicate All(p: char -> bool, s: string) {
    forall i :: 0 <= i < |s| ==> p(s[i])
  }

  lemma AllMono(p: char -> bool, q: char -> bool, s: string)
    requires All(p, s)
    requires forall c :: p(c) ==> q(c)
    ensures All(q, s)
  {
  }

  /** The characters of `s` that satisfy `p`, in order. */
  function Filter(p: char -> bool, s: string): (r: string)
    ensures |r| <= |s|
    ensures All(p, r)
    ensures forall i :: 0 <= i < |r| ==> r[i] in s
    ensures All(p, s) ==> r == s
  {
    if s == [] then []
    else
      var t := Filter(p, s[1..]);
      assert forall i :: 0 <= i < |t| ==> t[i] in s by {
        forall i | 0 <= i < |t| ensures t[i] in s {
          var j :| 0 <= j < |s[1..]| && s[1..][j] == t[i];
          assert s[j + 1] == t[i];
        }
      }
      (if p(s[0]) then [s[0]] else []) + t
  }

  lemma {:induction false} FilterAppend(p: char -> bool, a: string, b: string)
    ensures Filter(p, a + b) == Filter(p, a) + Filter(p, b)
  {
    if a == [] {
      assert a + b == b;
    } else {
      assert (a + b)[0] == a[0];
      assert (a + b)[1..] == a[1..] + b;
      FilterAppend(p, a[1..], b);
    }
  }

  lemma FilterSingle(p: char -> bool, c: char)
    ensures Filter(p, [c]) == if p(c) then [c] else []
  {
    assert [c][1..] == [];
  }

  /** Every character of `s` mapped through `f`. */
  function MapChars(f: char -> char, s: string): (r: string)
    ensures |r| == |s|
    ensures forall i :: 0 <= i < |s| ==> r[i] == f(s[i])
  {
    seq(|s|, i requires 0 <= i < |s| => f(s[i]))
  }

  lemma MapCharsAppend(f: char -> char, a: string, b: string)
    ensures MapChars(f, a + b) == MapChars(f, a) + MapChars(f, b)
  {
  }

  lemma MapCharsSnoc(f: char -> char, s: string, i: nat)
    requires i < |s|
    ensures MapChars(f, s[..i + 1]) == MapChars(f, s[..i]) + [f(s[i])]
  {
  }

  /** Mapping characters that keeps white space as it is leaves a trimmed
      text trimmed. */
  lemma TrimMapFixed(k: Space, f: char -> char, s: string)
    requires s == [] || (!IsSpace(k, s[0]) && !IsSpace(k, s[|s| - 1]))
    requires forall c :: IsSpace(k, f(c)) == IsSpace(k, c)
    ensures Trim(k, MapChars(f, s)) == MapChars(f, s)
  {
    var r := MapChars(f, s);
    if s != [] {
      assert r[0] == f(s[0]);
      assert r[|r| - 1] == f(s[|s| - 1]);
    }
  }

  lemma MapCharsFixed(f: char -> char, s: string)
    requires forall i :: 0 <= i < |s| ==> f(s[i]) == s[i]
    ensures MapChars(f, s) == s
  {
  }

  /** Number of UTF-8 bytes of `s` (Rust's `str::len`). */
  function Utf8Length(s: string): (n: nat)
    ensures n >= |s|
    ensures All(IsAscii, s) <==> n == |s|
  {
    if s == [] then 0
    else
      assert All(IsAscii, s) <==> IsAscii(s[0]) && All(IsAscii, s[1..]) by {
        assert forall i :: 0 <= i < |s[1..]| ==> s[1..][i] == s[i + 1];
      }
      Utf8Len(s[0]) + Utf8Length(s[1..])
  }

  lemma {:induction false} Utf8LengthAppend(a: string, b: string)
    ensures Utf8Length(a + b) == Utf8Length(a) + Utf8Length(b)
  {
    if a == [] {
      assert a + b == b;
    } else {
      assert (a + b)[0] == a[0];
      assert (a + b)[1..] == a[1..] + b;
      Utf8LengthAppend(a[1..], b);
    }
  }

  // ---------------------------------------------------------------------
  // Decomposition

  /** Canonical decomposition of a whole string. */
  function Nfd(s: string): (r: string)
    ensures All(IsAscii, s) ==> r == s
  {
    if s == [] then []
    else
      assert All(IsAscii, s) ==> All(IsAscii, s[1..]) by {
        assert forall i :: 0 <= i < |s[1..]| ==> s[1..][i] == s[i + 1];
      }
      Decompose(s[0]) + Nfd(s[1..])
  }

  lemma {:induction false} NfdAppend(a: string, b: string)
    ensures Nfd(a + b) == Nfd(a) + Nfd(b)
  {
    if a == [] {
      assert a + b == b;
    } else {
      assert (a + b)[0] == a[0];
      assert (a + b)[1..] == a[1..] + b;
      NfdAppend(a[1..], b);
    }
  }

  /** Compatibility decomposition of a whole string. */
  function Nfkd(s: string): (r: string)
    ensures All(IsAscii, s) ==> r == s
  {
    if s == [] then []
    else
      assert All(IsAscii, s) ==> All(IsAscii, s[1..]) by {
        assert forall i :: 0 <= i < |s[1..]| ==> s[1..][i] == s[i + 1];
      }
      CompatDecompose(s[0]) + Nfkd(s[1..])
  }

  lemma {:induction false} NfkdAppend(a: string, b: string)
    ensures Nfkd(a + b) == Nfkd(a) + Nfkd(b)
  {
    if a == [] {
      assert a + b == b;
    } else {
      HeadTail(a, b);
      NfkdAppend(a[1..], b);
    }
  }

  lemma NfkdSingle(c: char)
    ensures Nfkd([c]) == CompatDecompose(c)
  {
    assert [c][1..] == [];
  }

  predicate NotMark(c: char) {
    !IsCombiningMark(c)
  }

  // ---------------------------------------------------------------------
  // White space

  predicate SpaceFree(k: Space, s: string) {
    forall i :: 0 <= i < |s| ==> !IsSpace(k, s[i])
  }

  /** Leading white space removed. */
  function TrimStart(k: Space, s: string): (r: string)
    ensures |r| <= |s| && r == s[|s| - |r|..]
    ensures r == [] || !IsSpace(k, r[0])
    ensures forall i :: 0 <= i < |s| - |r| ==> IsSpace(k, s[i])
  {
    if s != [] && IsSpace(k, s[0]) then TrimStart(k, s[1..]) else s
  }

  /** Trailing white space removed. */
  function TrimEnd(k: Space, s: string): (r: string)
    ensures |r| <= |s| && r == s[..|r|]
    ensures r == [] || !IsSpace(k, r[|r| - 1])
    ensures forall i :: |r| <= i < |s| ==> IsSpace(k, s[i])
  {
    if s != [] && IsSpace(k, s[|s| - 1]) then TrimEnd(k, s[..|s| - 1]) else s
  }

  /** Rust `trim_matches` with a predicate: the text between the first and
      the last character that does not satisfy `p`. */
  function TrimBy(p: char -> bool, s: string): (r: string)
    ensures |r| <= |s|
    ensures r == [] <==> All(p, s)
    ensures r == [] || (!p(r[0]) && !p(r[|r| - 1]))
    ensures forall i :: 0 <= i < |r| ==> r[i] in s
    ensures (s == [] || (!p(s[0]) && !p(s[|s| - 1]))) ==> r == s
    decreases |s|
  {
    if s == [] then s
    else if p(s[0]) then
      var r := TrimBy(p, s[1..]);
      assert All(p, s) <==> All(p, s[1..]) by {
        assert forall i :: 0 <= i < |s[1..]| ==> s[1..][i] == s[i + 1];
      }
      assert forall i :: 0 <= i < |r| ==> r[i] in s by {
        assert forall c :: c in s[1..] ==> c in s;
      }
      r
    else if p(s[|s| - 1]) then
      var r := TrimBy(p, s[..|s| - 1]);
      assert All(p, s) <==> All(p, s[..|s| - 1]) by {
        assert forall i :: 0 <= i < |s| - 1 ==> s[..|s| - 1][i] == s[i];
      }
      assert forall i :: 0 <= i < |r| ==> r[i] in s by {
        assert forall c :: c in s[..|s| - 1] ==> c in s;
      }
      r
    else s
  }

  /** Python `strip()`, Rust `trim()`: the text between the first and the
      last non-space character. */
  function Trim(k: Space, s: string): (r: string)
    ensures |r| <= |s|
    ensures r == [] || (!IsSpace(k, r[0]) && !IsSpace(k, r[|r| - 1]))
    ensures (s == [] || (!IsSpace(k, s[0]) && !IsSpace(k, s[|s| - 1]))) ==> r == s
  {
    TrimEnd(k, TrimStart(k, s))
  }

  /** Trimming keeps a property of every character. */
  lemma TrimAll(k: Space, p: char -> bool, s: string)
    requires All(p, s)
    ensures All(p, Trim(k, s))
  {
    var t := TrimStart(k, s);
    assert All(p, t);
  }

  /** A space in front of text with no space at either end is trimmed off. */
  lemma TrimSpaceBefore(k: Space, x: string)
    requires x == [] || (!IsSpace(k, x[0]) && !IsSpace(k, x[|x| - 1]))
    ensures Trim(k, " " + x) == x
  {
    assert (" " + x)[1..] == x;
  }

  /** The pieces of `s` between white-space characters, empty ones included
      (Python `re.split(r"\s", s)`). */
  function Pieces(k: Space, s: string): (ps: seq<string>)
    ensures |ps| >= 1
    ensures forall i :: 0 <= i < |ps| ==> SpaceFree(k, ps[i])
  {
    if s == [] then [""]
    else
      var rest := Pieces(k, s[1..]);
      if IsSpace(k, s[0]) then [""] + rest
      else
        assert SpaceFree(k, [s[0]] + rest[0]) by {
          assert forall i :: 1 <= i < 1 + |rest[0]| ==> ([s[0]] + rest[0])[i] == rest[0][i - 1];
        }
        [[s[0]] + rest[0]] + rest[1..]
  }

  /** The non-empty strings of `ps`, in order. */
  function NonEmpty(ps: seq<string>): (r: seq<string>)
    ensures |r| <= |ps|
    ensures forall i :: 0 <= i < |r| ==> r[i] != [] && r[i] in ps
  {
    if ps == [] then []
    else
      var t := NonEmpty(ps[1..]);
      assert forall i :: 0 <= i < |t| ==> t[i] in ps by {
        forall i | 0 <= i < |t| ensures t[i] in ps {
          var j :| 0 <= j < |ps[1..]| && ps[1..][j] == t[i];
          assert ps[j + 1] == t[i];
        }
      }
      (if ps[0] == [] then [] else [ps[0]]) + t
  }

  /** Non-empty strings without white space. */
  predicate IsWordList(k: Space, ws: seq<string>) {
    forall i :: 0 <= i < |ws| ==> ws[i] != [] && SpaceFree(k, ws[i])
  }

  /** The maximal runs of non-space characters (Rust `split_whitespace`,
      Python `split()`). */
  function Words(k: Space, s: string): (ws: seq<string>)
    ensures IsWordList(k, ws)
  {
    var ps := Pieces(k, s);
    var ws := NonEmpty(ps);
    assert forall i :: 0 <= i < |ws| ==> SpaceFree(k, ws[i]) by {
      forall i | 0 <= i < |ws| ensures SpaceFree(k, ws[i]) {
        var j :| 0 <= j < |ps| && ps[j] == ws[i];
      }
    }
    ws
  }

  function Join(ws: seq<string>, sep: string): (r: string)
  {
    if |ws| == 0 then "" else if |ws| == 1 then ws[0] else ws[0] + sep + Join(ws[1..], sep)
  }

  /** `s` is a run of words separated by single ' ': no other white space,
      no space at either end, no two spaces in a row. */
  predicate SingleSpaced(k: Space, s: string) {
    && (forall i :: 0 <= i < |s| && IsSpace(k, s[i]) ==> s[i] == ' ')
    && (s != [] ==> s[0] != ' ' && s[|s| - 1] != ' ')
    && (forall i :: 0 <= i < |s| - 1 && s[i] == ' ' ==> s[i + 1] != ' ')
  }

  /** Collapse and trim: white space runs become one ' ', none at the ends
      (Python `re.sub(r"\s+", " ", s).strip()`, Rust
      `split_whitespace().collect::<Vec<_>>().join(" ")`). */
  function Squeeze(k: Space, s: string): string
  {
    Join(Words(k, s), " ")
  }

  lemma {:induction false} JoinCons(w: string, ws: seq<string>, sep: string)
    requires ws != []
    ensures Join([w] + ws, sep) == w + sep + Join(ws, sep)
  {
    assert ([w] + ws)[1..] == ws;
  }

  lemma {:induction false} JoinNonEmpty(ws: seq<string>, sep: string)
    requires |ws| >= 1 && ws[0] != []
    ensures Join(ws, sep) != [] && Join(ws, sep)[0] == ws[0][0]
  {
  }

  /** The last character of a join is the last character of the last piece. */
  lemma {:induction false} JoinLast(ws: seq<string>, sep: string)
    requires ws != [] && ws[|ws| - 1] != []
    ensures Join(ws, sep) != [] && Join(ws, sep)[|Join(ws, sep)| - 1] == ws[|ws| - 1][|ws[|ws| - 1]| - 1]
    decreases |ws|
  {
    if |ws| > 1 {
      JoinLast(ws[1..], sep);
    }
  }

  lemma {:induction false} JoinSingleSpaced(k: Space, ws: seq<string>)
    requires IsWordList(k, ws)
    ensures SingleSpaced(k, Join(ws, " "))
  {
    if |ws| > 1 {
      JoinSingleSpaced(k, ws[1..]);
      var w, rest := ws[0], Join(ws[1..], " ");
      var s := w + " " + rest;
      JoinNonEmpty(ws[1..], " ");
      assert !IsSpace(k, ws[1][0]);
      forall i | 0 <= i < |w| ensures s[i] == w[i] && !IsSpace(k, s[i]) { }
      forall i | |w| < i < |s| ensures s[i] == rest[i - |w| - 1] { }
      assert s[|w|] == ' ';
    }
  }

  /** Every character of the joined words is the separator ' ' or a
      character of one of the words. */
  lemma {:induction false} JoinAll(ws: seq<string>, p: char -> bool)
    requires p(' ')
    requires forall i :: 0 <= i < |ws| ==> All(p, ws[i])
    ensures All(p, Join(ws, " "))
  {
    if |ws| > 1 {
      JoinAll(ws[1..], p);
      var w, rest := ws[0], Join(ws[1..], " ");
      var s := w + " " + rest;
      forall i | 0 <= i < |s| ensures p(s[i]) {
        if i < |w| { assert s[i] == w[i]; }
        else if i > |w| { assert s[i] == rest[i - |w| - 1]; }
      }
    }
  }

  /** A property of every character of `s` holds of every character of each piece. */
  lemma {:induction false} PiecesAll(k: Space, s: string, p: char -> bool)
    requires All(p, s)
    ensures forall i :: 0 <= i < |Pieces(k, s)| ==> All(p, Pieces(k, s)[i])
  {
    if s != [] {
      PiecesAll(k, s[1..], p);
      var rest := Pieces(k, s[1..]);
      var h := [s[0]] + rest[0];
      assert p(s[0]);
      assert All(p, h) by {
        forall i | 0 <= i < |h| ensures p(h[i]) {
          if i > 0 { assert h[i] == rest[0][i - 1]; }
        }
      }
    }
  }

  /** A property of every character of `s` holds of every character of each word. */
  lemma WordsAll(k: Space, s: string, p: char -> bool)
    requires All(p, s)
    ensures forall i :: 0 <= i < |Words(k, s)| ==> All(p, Words(k, s)[i])
  {
    var ps := Pieces(k, s);
    var ws := Words(k, s);
    PiecesAll(k, s, p);
    forall i | 0 <= i < |ws| ensures All(p, ws[i]) {
      var j :| 0 <= j < |ps| && ps[j] == ws[i];
    }
  }

  /** Every character of the squeeze of `s` is the separator ' ' or a
      non-space character allowed by `p`, when all of `s` is. */
  lemma SqueezeAll(k: Space, s: string, p: char -> bool, q: char -> bool)
    requires All(p, s)
    requires q(' ')
    requires forall c :: p(c) && !IsSpace(k, c) ==> q(c)
    ensures All(q, Squeeze(k, s))
  {
    var ps := Pieces(k, s);
    var ws := Words(k, s);
    PiecesAll(k, s, p);
    forall i | 0 <= i < |ws| ensures All(q, ws[i]) {
      var j :| 0 <= j < |ps| && ps[j] == ws[i];
      assert All(p, ps[j]);
      assert SpaceFree(k, ps[j]);
    }
    JoinAll(ws, q);
  }

  /** A space-free prefix glues onto the first piece of what follows. */
  lemma {:induction false} PiecesOfPrefix(k: Space, w: string, t: string)
    requires SpaceFree(k, w)
    ensures Pieces(k, w + t) == [w + Pieces(k, t)[0]] + Pieces(k, t)[1..]
  {
    if w == [] {
      var ps := Pieces(k, t);
      assert w + t == t && w + ps[0] == ps[0];
      assert ps == [ps[0]] + ps[1..];
    } else {
      assert (w + t)[0] == w[0];
      assert (w + t)[1..] == w[1..] + t;
      assert SpaceFree(k, w[1..]) by {
        assert forall i :: 0 <= i < |w[1..]| ==> w[1..][i] == w[i + 1];
      }
      PiecesOfPrefix(k, w[1..], t);
      assert [w[0]] + (w[1..] + Pieces(k, t)[0]) == w + Pieces(k, t)[0];
    }
  }

  lemma {:induction false} NonEmptyCons(w: string, ps: seq<string>)
    ensures NonEmpty([w] + ps) == (if w == [] then [] else [w]) + NonEmpty(ps)
  {
    assert ([w] + ps)[1..] == ps;
  }

  /** Splitting single-spaced words apart and joining them again gives the words back. */
  lemma {:induction false} WordsOfJoin(k: Space, ws: seq<string>)
    requires IsWordList(k, ws)
    ensures Words(k, Join(ws, " ")) == ws
    decreases |ws|
  {
    if |ws| == 0 {
    } else if |ws| == 1 {
      var w := ws[0];
      PiecesOfPrefix(k, w, []);
      assert w + [] == w;
      assert Pieces(k, w) == [w];
      NonEmptyCons(w, []);
    } else {
      var w, rest := ws[0], Join(ws[1..], " ");
      WordsOfJoin(k, ws[1..]);
      PiecesOfPrefix(k, w, " " + rest);
      assert (" " + rest)[1..] == rest;
      assert Pieces(k, " " + rest) == [""] + Pieces(k, rest);
      assert w + "" == w && ([""] + Pieces(k, rest))[1..] == Pieces(k, rest);
      assert w + " " + rest == w + (" " + rest);
      JoinCons(w, ws[1..], " ");
      assert ws == [w] + ws[1..];
      assert Pieces(k, Join(ws, " ")) == [w] + Pieces(k, rest);
      NonEmptyCons(w, Pieces(k, rest));
    }
  }

  lemma PiecesCons(k: Space, c: char, t: string)
    ensures Pieces(k, [c] + t) ==
      if IsSpace(k, c) then [""] + Pieces(k, t)
      else [[c] + Pieces(k, t)[0]] + Pieces(k, t)[1..]
  {
    assert ([c] + t)[1..] == t;
  }

  lemma PiecesAroundSpaceStep(k: Space, c: char, t: string, b: string)
    requires Pieces(k, t + " " + b) == Pieces(k, t) + Pieces(k, b)
    ensures Pieces(k, [c] + t + " " + b) == Pieces(k, [c] + t) + Pieces(k, b)
  {
    AppendAssoc([c], t, " ");
    AppendAssoc([c], t + " ", b);
    PiecesCons(k, c, t + " " + b);
    PiecesCons(k, c, t);
    var ra, rb := Pieces(k, t), Pieces(k, b);
    if IsSpace(k, c) {
      AppendAssoc([""], ra, rb);
    } else {
      HeadTail(ra, rb);
      AppendAssoc([[c] + ra[0]], ra[1..], rb);
    }
  }

  /** A space glues nothing: the pieces around it are kept apart. */
  lemma {:induction false} PiecesAroundSpace(k: Space, a: string, b: string)
    ensures Pieces(k, a + " " + b) == Pieces(k, a) + Pieces(k, b)
    decreases |a|
  {
    if a == [] {
      assert a + " " + b == [' '] + b;
      PiecesCons(k, ' ', b);
    } else {
      PiecesAroundSpace(k, a[1..], b);
      PiecesAroundSpaceStep(k, a[0], a[1..], b);
      assert a == [a[0]] + a[1..];
    }
  }

  lemma {:induction false} NonEmptyAppend(xs: seq<string>, ys: seq<string>)
    ensures NonEmpty(xs + ys) == NonEmpty(xs) + NonEmpty(ys)
    decreases |xs|
  {
    if xs == [] {
      assert xs + ys == ys;
    } else {
      assert (xs + ys)[0] == xs[0];
      assert (xs + ys)[1..] == xs[1..] + ys;
      NonEmptyAppend(xs[1..], ys);
    }
  }

  /** The words of two texts joined by a space are the words of each. */
  lemma WordsAroundSpace(k: Space, a: string, b: string)
    ensures Words(k, a + " " + b) == Words(k, a) + Words(k, b)
  {
    PiecesAroundSpace(k, a, b);
    NonEmptyAppend(Pieces(k, a), Pieces(k, b));
  }

  lemma {:induction false} JoinAppend(xs: seq<string>, ys: seq<string>, sep: string)
    requires xs != [] && ys != []
    ensures Join(xs + ys, sep) == Join(xs, sep) + sep + Join(ys, sep)
    decreases |xs|
  {
    if |xs| == 1 {
      assert xs + ys == [xs[0]] + ys;
      JoinCons(xs[0], ys, sep);
    } else {
      assert xs + ys == [xs[0]] + (xs[1..] + ys);
      JoinCons(xs[0], xs[1..] + ys, sep);
      JoinAppend(xs[1..], ys, sep);
      JoinCons(xs[0], xs[1..], sep);
      assert xs == [xs[0]] + xs[1..];
    }
  }

  /** Squeezing two texts joined by a space squeezes each and joins the
      non-empty results by one space. */
  lemma SqueezeAroundSpace(k: Space, a: string, b: string)
    ensures Squeeze(k, a + " " + b) ==
      if Squeeze(k, a) == "" then Squeeze(k, b)
      else if Squeeze(k, b) == "" then Squeeze(k, a)
      else Squeeze(k, a) + " " + Squeeze(k, b)
  {
    WordsAroundSpace(k, a, b);
    var wa, wb := Words(k, a), Words(k, b);
    if wa == [] {
      assert wa + wb == wb;
    } else if wb == [] {
      assert wa + wb == wa;
      JoinNonEmpty(wa, " ");
    } else {
      JoinAppend(wa, wb, " ");
      JoinNonEmpty(wa, " ");
      JoinNonEmpty(wb, " ");
    }
  }

  /** Single-spaced words are their own squeeze. */
  lemma SqueezeOfJoin(k: Space, ws: seq<string>)
    requires IsWordList(k, ws)
    ensures Squeeze(k, Join(ws, " ")) == Join(ws, " ")
  {
    WordsOfJoin(k, ws);
  }

  /** Squeezing twice is squeezing once. */
  lemma SqueezeIdempotent(k: Space, s: string)
    ensures Squeeze(k, Squeeze(k, s)) == Squeeze(k, s)
  {
    WordsOfJoin(k, Words(k, s));
  }

  /** The squeeze is single-spaced. */
  lemma SqueezeSingleSpaced(k: Space, s: string)
    ensures SingleSpaced(k, Squeeze(k, s))
  {
    JoinSingleSpaced(k, Words(k, s));
  }

  // ---------------------------------------------------------------------
  // Separators

  /** First index of `c` in `s`. */
  function IndexOf(s: string, c: char): (r: Option<nat>)
    ensures r.None? <==> c !in s
    ensures r.Some? ==> r.value < |s| && s[r.value] == c && c !in s[..r.value]
  {
    if s == [] then None
    else if s[0] == c then Some(0)
    else match IndexOf(s[1..], c)
      case None => None
      case Some(i) => assert s[1..][..i] == s[1..i + 1]; Some(i + 1)
  }

  lemma {:induction false} IndexOfAfter(a: string, c: char, b: string)
    requires c !in a
    ensures IndexOf(a + [c] + b, c) == Some(|a|)
  {
    if a != [] {
      assert (a + [c] + b)[1..] == a[1..] + [c] + b;
      IndexOfAfter(a[1..], c, b);
    }
  }

  /** Rust `str::split(sep)`, Python `str.split(sep)`: the pieces between
      separators, empty ones included. */
  function SplitOn(s: string, sep: char): (parts: seq<string>)
    ensures |parts| >= 1
    ensures forall i :: 0 <= i < |parts| ==> sep !in parts[i]
    decreases |s|
  {
    match IndexOf(s, sep)
    case None => [s]
    case Some(i) => [s[..i]] + SplitOn(s[i + 1..], sep)
  }

  /** Python `str.split(sep, n)`: at most `n` splits, the last piece keeps
      any further separators. */
  function SplitN(s: string, sep: char, n: nat): (parts: seq<string>)
    ensures 1 <= |parts| <= n + 1
    ensures |parts| <= Count(s, sep) + 1
    decreases n
  {
    if n == 0 then [s]
    else match IndexOf(s, sep)
      case None => [s]
      case Some(i) =>
        CountAtFirst(s, sep, i);
        [s[..i]] + SplitN(s[i + 1..], sep, n - 1)
  }

  lemma {:induction false} JoinSplitOn(s: string, sep: char)
    ensures Join(SplitOn(s, sep), [sep]) == s
    decreases |s|
  {
    match IndexOf(s, sep)
    case None =>
    case Some(i) =>
      JoinSplitOn(s[i + 1..], sep);
      JoinCons(s[..i], SplitOn(s[i + 1..], sep), [sep]);
      assert s == s[..i] + [sep] + s[i + 1..];
  }

  /** Splitting the join of separator-free pieces gives the pieces back. */
  lemma {:induction false} SplitOnJoin(ws: seq<string>, sep: char)
    requires |ws| >= 1
    requires forall i :: 0 <= i < |ws| ==> sep !in ws[i]
    ensures SplitOn(Join(ws, [sep]), sep) == ws
  {
    if |ws| == 1 {
    } else {
      var s := Join(ws, [sep]);
      JoinCons(ws[0], ws[1..], [sep]);
      assert s == ws[0] + [sep] + Join(ws[1..], [sep]);
      IndexOfAfter(ws[0], sep, Join(ws[1..], [sep]));
      assert s[..|ws[0]|] == ws[0];
      assert s[|ws[0]| + 1..] == Join(ws[1..], [sep]);
      SplitOnJoin(ws[1..], sep);
      assert ws == [ws[0]] + ws[1..];
    }
  }

  lemma {:induction false} JoinSnoc(ws: seq<string>, w: string, sep: string)
    requires ws != []
    ensures Join(ws + [w], sep) == Join(ws, sep) + sep + w
    decreases |ws|
  {
    if |ws| == 1 {
      assert (ws + [w])[1..] == [w];
    } else {
      assert (ws + [w])[1..] == ws[1..] + [w];
      JoinSnoc(ws[1..], w, sep);
    }
  }

  /** Gluing `t` onto the last piece puts it at the end of the join. */
  lemma JoinGlue(ws: seq<string>, sep: string, t: string)
    requires ws != []
    ensures Join(ws[..|ws| - 1] + [ws[|ws| - 1] + t], sep) == Join(ws, sep) + t
  {
    var n := |ws|;
    var init, last := ws[..n - 1], ws[n - 1];
    if n == 1 {
      assert init + [last + t] == [last + t];
    } else {
      JoinSnoc(init, last + t, sep);
      JoinSnoc(init, last, sep);
      assert ws == init + [last];
    }
  }

  /** Appending `sep + x` to a list adds the field `x`. */
  lemma SplitOnSnoc(s: string, x: string, sep: char)
    requires sep !in x
    ensures SplitOn(s + [sep] + x, sep) == SplitOn(s, sep) + [x]
  {
    var fs := SplitOn(s, sep);
    JoinSplitOn(s, sep);
    JoinSnoc(fs, x, [sep]);
    SplitOnJoin(fs + [x], sep);
  }

  /** The strings of a list, as a set. */
  function Elems(ws: seq<string>): set<string> {
    set w | w in ws
  }

  lemma ElemsSnoc(ws: seq<string>, w: string)
    ensures Elems(ws + [w]) == Elems(ws) + {w}
  {
  }

  /** How many times `c` occurs in `s`. */
  function Count(s: string, c: char): nat {
    if s == [] then 0 else (if s[0] == c then 1 else 0) + Count(s[1..], c)
  }

  lemma {:induction false} CountAppend(a: string, b: string, c: char)
    ensures Count(a + b, c) == Count(a, c) + Count(b, c)
    decreases |a|
  {
    if a == [] {
      assert a + b == b;
    } else {
      assert (a + b)[1..] == a[1..] + b;
      CountAppend(a[1..], b, c);
    }
  }

  lemma {:induction false} CountAbsent(s: string, c: char)
    ensures Count(s, c) == 0 <==> c !in s
    decreases |s|
  {
    if s != [] {
      CountAbsent(s[1..], c);
      assert s == [s[0]] + s[1..];
    }
  }

  lemma CountAtFirst(s: string, sep: char, i: nat)
    requires IndexOf(s, sep) == Some(i)
    ensures Count(s, sep) == Count(s[i + 1..], sep) + 1
  {
    var rest := s[i + 1..];
    assert s == s[..i] + [sep] + rest;
    CountAppend(s[..i] + [sep], rest, sep);
    CountAppend(s[..i], [sep], sep);
    CountAbsent(s[..i], sep);
    assert Count([sep], sep) == 1;
  }

  /** Splitting at most `|ws|` times gives back separator-free fields and a
      last field that keeps any further separators. */
  lemma {:induction false} SplitNJoin(ws: seq<string>, last: string, sep: char)
    requires forall i :: 0 <= i < |ws| ==> sep !in ws[i]
    ensures SplitN(Join(ws + [last], [sep]), sep, |ws|) == ws + [last]
    decreases |ws|
  {
    if ws == [] {
      assert ws + [last] == [last];
    } else {
      var w, rest := ws[0], ws[1..] + [last];
      assert ws + [last] == [w] + rest;
      JoinCons(w, rest, [sep]);
      IndexOfAfter(w, sep, Join(rest, [sep]));
      var s := Join(ws + [last], [sep]);
      assert s[..|w|] == w;
      assert s[|w| + 1..] == Join(rest, [sep]);
      SplitNJoin(ws[1..], last, sep);
    }
  }
}
