/**
  The duplicate-file cleanup inside each author folder: files are grouped
  by a normalised form of their stem, one file per group is kept (an
  accented name before an unaccented one, else the larger file, else the
  first seen), the kept file is renamed to the capitalised group key and
  the other files of the group are deleted.
 */
module CleanupFilenames {
  import opened Wrappers
  import opened Unicode
  import opened Text
  import opened Lists

  // ---------------------------------------------------------------------
  // Options

  predicate IsDot(c: char) { c == '.' }

  /** Leading dots removed (`trim_start_matches('.')`). */
  function DropLeadingDots(s: string): (r: string)
    ensures r == [] || r[0] != '.'
    ensures |r| <= |s| && r == s[|s| - |r|..]
    ensures s == [] || s[0] != '.' ==> r == s
  {
    if s != [] && s[0] == '.' then DropLeadingDots(s[1..]) else s
  }

  /** One item of the extension list: trimmed, leading dots removed, ASCII
      letters lower-cased. */
  function CleanExt(item: string): (r: string)
    ensures r == [] || r[0] != '.'
  {
    MapChars(AsciiLower, DropLeadingDots(Trim(Rust, item)))
  }

  function CleanExts(items: seq<string>): (r: seq<string>)
    ensures |r| == |items|
    ensures forall i :: 0 <= i < |items| ==> r[i] == CleanExt(items[i])
  {
    seq(|items|, i requires 0 <= i < |items| => CleanExt(items[i]))
  }

  /** An extension as the list holds it: non-empty, no comma, no leading
      dot, no white space at either end, no ASCII upper case. */
  predicate IsExt(e: string) {
    && e != [] && e[0] != '.' && ',' !in e
    && !IsSpace(Rust, e[0]) && !IsSpace(Rust, e[|e| - 1])
    && forall i :: 0 <= i < |e| ==> !IsAsciiUpper(e[i])
  }

  /** `parse_exts`: None for a blank option, else the cleaned comma-separated
      items that are not empty. */
  function ParseExts(exts: string): (r: Option<seq<string>>)
    ensures r.None? <==> Trim(Rust, exts) == []
    ensures r.Some? ==> forall i :: 0 <= i < |r.value| ==> r.value[i] != [] && r.value[i][0] != '.'
    ensures r.Some? ==> forall x :: x in r.value <==> x != [] && exists p :: p in SplitOn(Trim(Rust, exts), ',') && CleanExt(p) == x
  {
    var trimmed := Trim(Rust, exts);
    if trimmed == [] then None
    else
      var parts := SplitOn(trimmed, ',');
      var items := NonEmpty(CleanExts(parts));
      NonEmptyExactly(CleanExts(parts));
      CleanExtsMembers(parts);
      Some(items)
  }

  lemma CleanExtsMembers(parts: seq<string>)
    ensures forall x :: x in CleanExts(parts) <==> exists p :: p in parts && CleanExt(p) == x
  {
    forall x | x in CleanExts(parts) ensures exists p :: p in parts && CleanExt(p) == x {
      var i :| 0 <= i < |parts| && CleanExts(parts)[i] == x;
      assert parts[i] in parts;
    }
    forall x | (exists p :: p in parts && CleanExt(p) == x) ensures x in CleanExts(parts) {
      var p :| p in parts && CleanExt(p) == x;
      var i :| 0 <= i < |parts| && parts[i] == p;
      assert CleanExts(parts)[i] == x;
    }
  }

  lemma {:induction false} NonEmptyExactly(xs: seq<string>)
    ensures forall x :: x in NonEmpty(xs) <==> x in xs && x != []
    decreases |xs|
  {
    if xs != [] {
      NonEmptyExactly(xs[1..]);
      NonEmptyCons(xs[0], xs[1..]);
      assert xs == [xs[0]] + xs[1..];
    }
  }

  lemma CleanExtOfExt(e: string)
    requires IsExt(e)
    ensures CleanExt(e) == e
  {
    assert MapChars(AsciiLower, e) == e;
  }

  /** A list written out with commas parses back to itself. */
  lemma ParseExtsRoundTrip(es: seq<string>)
    requires es != []
    requires forall i :: 0 <= i < |es| ==> IsExt(es[i])
    ensures ParseExts(Join(es, ",")) == Some(es)
  {
    var s := Join(es, ",");
    JoinTrimmed(es);
    SplitOnJoin(es, ',');
    CleanExtsOfExts(es);
    NonEmptyAll(es);
  }

  lemma JoinTrimmed(es: seq<string>)
    requires es != []
    requires forall i :: 0 <= i < |es| ==> IsExt(es[i])
    ensures Trim(Rust, Join(es, ",")) == Join(es, ",")
  {
    JoinNonEmpty(es, ",");
    JoinLast(es, ",");
  }

  lemma CleanExtsOfExts(es: seq<string>)
    requires forall i :: 0 <= i < |es| ==> IsExt(es[i])
    ensures CleanExts(es) == es
  {
    forall i | 0 <= i < |es| ensures CleanExts(es)[i] == es[i] {
      CleanExtOfExt(es[i]);
    }
  }

  lemma {:induction false} NonEmptyAll(xs: seq<string>)
    requires forall i :: 0 <= i < |xs| ==> xs[i] != []
    ensures NonEmpty(xs) == xs
    decreases |xs|
  {
    if xs != [] {
      NonEmptyAll(xs[1..]);
      NonEmptyCons(xs[0], xs[1..]);
      assert xs == [xs[0]] + xs[1..];
    }
  }

  /** `capitalize_first`: the first character upper-cased, the rest kept. */
  function CapitalizeFirst(s: string): (r: string)
    ensures s == [] ==> r == []
    ensures s != [] ==> r == UpperChars(s[0]) + s[1..]
  {
    if s == [] then s else UpperChars(s[0]) + s[1..]
  }

  /** On ASCII the first character alone changes and the length is kept. */
  lemma CapitalizeFirstAscii(s: string)
    requires s != [] && IsAscii(s[0])
    ensures |CapitalizeFirst(s)| == |s|
    ensures CapitalizeFirst(s)[1..] == s[1..]
    ensures CapitalizeFirst(s)[0] == AsciiUpper(s[0])
  {
  }

  function AsciiUpper(c: char): char {
    if IsAsciiLower(c) then (c as int - 32) as char else c
  }

  /** Capitalising twice is capitalising once, so a kept file already named
      after its key is not renamed again. */
  lemma CapitalizeFirstIdempotent(s: string)
    ensures CapitalizeFirst(CapitalizeFirst(s)) == CapitalizeFirst(s)
  {
    if s != [] {
      var u := UpperChars(s[0]);
      HeadTail(u, s[1..]);
      var r := u + s[1..];
      assert UpperChars(r[0]) == [u[0]];
      HeadTail([u[0]], u[1..]);
      assert u == [u[0]] + u[1..];
      AppendAssoc([u[0]], u[1..], s[1..]);
    }
  }

  // ---------------------------------------------------------------------
  // Directory listing

  /** One entry of a directory listing: its file name, whether it is a
      regular file, its stem and extension as the path splits them (None
      when absent or not UTF-8) and its size (0 when unreadable). */
  datatype DirEntry = DirEntry(name: string, isFile: bool, stem: Option<string>, ext: Option<string>, size: nat)

  /** A file taken into a group; `ext` is "" when the name has none. */
  datatype FileEntry = FileEntry(name: string, stem: string, ext: string, size: nat)

  /** `has_accents`: some character outside ASCII. */
  predicate HasAccents(s: string) {
    exists i :: 0 <= i < |s| && !IsAscii(s[i])
  }

  /** Whether the listing entry takes part: a regular file, with an
      extension in the list when a list is given, and a UTF-8 stem. */
  predicate Accepted(d: DirEntry, allowed: Option<seq<string>>) {
    && d.isFile
    && (allowed.Some? ==> d.ext.Some? && MapChars(AsciiLower, d.ext.value) in allowed.value)
    && d.stem.Some?
  }

  function ToFile(d: DirEntry): FileEntry
    requires d.stem.Some?
  {
    FileEntry(d.name, d.stem.value, if d.ext.Some? then d.ext.value else "", d.size)
  }

  /** Whether `cand` replaces `best`. */
  predicate Better(cand: FileEntry, best: FileEntry) {
    var bestAccents, candAccents := HasAccents(best.stem), HasAccents(cand.stem);
    if bestAccents && !candAccents then false
    else if !bestAccents && candAccents then true
    else best.size < cand.size
  }

  /** The rule is the strict order on (accented, size), compared
      lexicographically. */
  lemma BetterLexicographic(cand: FileEntry, best: FileEntry)
    ensures Better(cand, best) <==>
      (HasAccents(cand.stem) && !HasAccents(best.stem)) ||
      (HasAccents(cand.stem) == HasAccents(best.stem) && best.size < cand.size)
  {
  }

  // ---------------------------------------------------------------------
  // Grouping and selection, as functions of the listing read so far

  function Lookup(m: map<string, seq<FileEntry>>, k: string): seq<FileEntry> {
    if k in m then m[k] else []
  }

  /** The files of each key, in listing order. */
  function Groups(ds: seq<DirEntry>, allowed: Option<seq<string>>, key: string -> string): map<string, seq<FileEntry>>
  {
    if ds == [] then map[]
    else
      var g := Groups(ds[..|ds| - 1], allowed, key);
      var d := ds[|ds| - 1];
      if Accepted(d, allowed) then
        var k := key(d.stem.value);
        g[k := Lookup(g, k) + [ToFile(d)]]
      else g
  }

  /** The file kept for each key. */
  function Bests(ds: seq<DirEntry>, allowed: Option<seq<string>>, key: string -> string): map<string, FileEntry>
  {
    if ds == [] then map[]
    else
      var b := Bests(ds[..|ds| - 1], allowed, key);
      var d := ds[|ds| - 1];
      if Accepted(d, allowed) then
        var k, e := key(d.stem.value), ToFile(d);
        if k !in b || Better(e, b[k]) then b[k := e] else b
      else b
  }

  /** The file kept from one group: each file replaces the kept one when it
      is better. */
  function FoldBest(g: seq<FileEntry>): FileEntry
    requires g != []
  {
    if |g| == 1 then g[0]
    else
      var b := FoldBest(g[..|g| - 1]);
      if Better(g[|g| - 1], b) then g[|g| - 1] else b
  }

  /** Both maps have the same keys, every group is non-empty, and the kept
      file of a key is the fold over its group. */
  lemma {:induction false} BestsFoldGroups(ds: seq<DirEntry>, allowed: Option<seq<string>>, key: string -> string)
    ensures Bests(ds, allowed, key).Keys == Groups(ds, allowed, key).Keys
    ensures forall k :: k in Groups(ds, allowed, key) ==>
      Groups(ds, allowed, key)[k] != [] && Bests(ds, allowed, key)[k] == FoldBest(Groups(ds, allowed, key)[k])
    decreases |ds|
  {
    if ds != [] {
      var init, d := ds[..|ds| - 1], ds[|ds| - 1];
      BestsFoldGroups(init, allowed, key);
      if Accepted(d, allowed) {
        var g := Groups(init, allowed, key);
        var k := key(d.stem.value);
        var grp := Lookup(g, k) + [ToFile(d)];
        assert grp[..|grp| - 1] == Lookup(g, k);
      }
    }
  }

  /** `g[i]` is the first file of `g` with the greatest (accented, size):
      every earlier file is worse and no later one is better. */
  predicate FirstMax(g: seq<FileEntry>, i: int) {
    && 0 <= i < |g|
    && (forall j :: 0 <= j < i ==> Better(g[i], g[j]))
    && (forall j :: i < j < |g| ==> !Better(g[j], g[i]))
  }

  /** A file better than one that no other file beats beats that file too. */
  lemma BetterThanMax(a: FileEntry, b: FileEntry, c: FileEntry)
    requires Better(a, b) && (Better(b, c) || !Better(c, b))
    ensures Better(a, c)
  {
  }

  /** Extending the group by a file: either the new file beats the old
      maximum and becomes the first maximum, or the old one stays. */
  lemma FirstMaxSnoc(init: seq<FileEntry>, x: FileEntry, i: int)
    requires FirstMax(init, i)
    ensures Better(x, init[i]) ==> FirstMax(init + [x], |init|)
    ensures !Better(x, init[i]) ==> FirstMax(init + [x], i)
  {
    var g := init + [x];
    if Better(x, init[i]) {
      forall j | 0 <= j < |init| ensures Better(x, g[j]) {
        BetterThanMax(x, init[i], init[j]);
      }
    } else {
      forall j | i < j < |g| ensures !Better(g[j], g[i]) {
        if j < |init| { assert g[j] == init[j]; }
      }
      forall j | 0 <= j < i ensures Better(g[i], g[j]) {
        assert g[j] == init[j];
      }
    }
  }

  /** The kept file is the first file of the group with the greatest
      (accented, size). */
  lemma {:induction false} FoldBestFirstMaximum(g: seq<FileEntry>)
    requires g != []
    ensures exists i :: FirstMax(g, i) && g[i] == FoldBest(g)
    decreases |g|
  {
    if |g| == 1 {
      assert FirstMax(g, 0);
    } else {
      var init, x := g[..|g| - 1], g[|g| - 1];
      assert g == init + [x];
      FoldBestFirstMaximum(init);
      var i :| FirstMax(init, i) && init[i] == FoldBest(init);
      FirstMaxSnoc(init, x, i);
      if Better(x, init[i]) {
        assert FirstMax(g, |g| - 1);
      } else {
        assert FirstMax(g, i);
      }
    }
  }

  /** Some accepted entry of the listing, of key `k`, gives the file `e`. */
  predicate FromListing(ds: seq<DirEntry>, allowed: Option<seq<string>>, key: string -> string, k: string, e: FileEntry) {
    exists i :: 0 <= i < |ds| && Accepted(ds[i], allowed) && key(ds[i].stem.value) == k && ToFile(ds[i]) == e
  }

  lemma FromListingSnoc(ds: seq<DirEntry>, allowed: Option<seq<string>>, key: string -> string, k: string, e: FileEntry)
    requires ds != []
    ensures var d := ds[|ds| - 1];
      FromListing(ds, allowed, key, k, e) <==>
      FromListing(ds[..|ds| - 1], allowed, key, k, e) ||
      (Accepted(d, allowed) && key(d.stem.value) == k && ToFile(d) == e)
  {
    var init := ds[..|ds| - 1];
    if FromListing(ds, allowed, key, k, e) {
      var i :| 0 <= i < |ds| && Accepted(ds[i], allowed) && key(ds[i].stem.value) == k && ToFile(ds[i]) == e;
      if i < |init| {
        assert init[i] == ds[i];
      }
    }
    if FromListing(init, allowed, key, k, e) {
      var i :| 0 <= i < |init| && Accepted(init[i], allowed) && key(init[i].stem.value) == k && ToFile(init[i]) == e;
      assert init[i] == ds[i];
    }
  }

  /** A file is in the group of key `k` exactly when an accepted listing
      entry with that key gave it. */
  lemma {:induction false} GroupsMembers(ds: seq<DirEntry>, allowed: Option<seq<string>>, key: string -> string, k: string, e: FileEntry)
    ensures (k in Groups(ds, allowed, key) && e in Groups(ds, allowed, key)[k]) <==> FromListing(ds, allowed, key, k, e)
    decreases |ds|
  {
    if ds != [] {
      GroupsMembers(ds[..|ds| - 1], allowed, key, k, e);
      FromListingSnoc(ds, allowed, key, k, e);
    }
  }

  /** The keys of the accepted entries. */
  function KeysOf(ds: seq<DirEntry>, allowed: Option<seq<string>>, key: string -> string): set<string> {
    set i | 0 <= i < |ds| && Accepted(ds[i], allowed) :: key(ds[i].stem.value)
  }

  lemma {:induction false} GroupKeys(ds: seq<DirEntry>, allowed: Option<seq<string>>, key: string -> string)
    ensures Groups(ds, allowed, key).Keys == KeysOf(ds, allowed, key)
    decreases |ds|
  {
    if ds != [] {
      var init := ds[..|ds| - 1];
      GroupKeys(init, allowed, key);
      assert forall i :: 0 <= i < |init| ==> init[i] == ds[i];
      var d := ds[|ds| - 1];
      assert KeysOf(ds, allowed, key) ==
        KeysOf(init, allowed, key) + (if Accepted(d, allowed) then {key(d.stem.value)} else {});
    }
  }

  // ---------------------------------------------------------------------
  // Plan

  datatype Action = Rename(from: string, to: string) | Delete(name: string)

  /** The name the kept file of key `k` should have. */
  function TargetName(k: string, best: FileEntry): string {
    if best.ext == [] then CapitalizeFirst(k) else CapitalizeFirst(k) + "." + best.ext
  }

  /** The names of a group's files. */
  function Names(g: seq<FileEntry>): set<string> {
    set e | e in g :: e.name
  }

  /** A deletion of every file of `g` whose name is not in `skip`, in the
      order of the group. */
  function Deletes(g: seq<FileEntry>, skip: set<string>): seq<Action>
    decreases |g|
  {
    if g == [] then []
    else
      var e := g[|g| - 1];
      Deletes(g[..|g| - 1], skip) + if e.name in skip then [] else [Delete(e.name)]
  }

  lemma DeletesSnoc(g: seq<FileEntry>, skip: set<string>, j: nat)
    requires j < |g|
    ensures Deletes(g[..j + 1], skip) == Deletes(g[..j], skip) + if g[j].name in skip then [] else [Delete(g[j].name)]
  {
    assert g[..j + 1][..j] == g[..j];
  }

  /** The deletions name exactly the files of the group outside `skip`. */
  lemma {:induction false} DeletesIn(g: seq<FileEntry>, skip: set<string>, a: Action)
    ensures a in Deletes(g, skip) <==> a.Delete? && a.name in Names(g) && a.name !in skip
    decreases |g|
  {
    if g != [] {
      var init, e := g[..|g| - 1], g[|g| - 1];
      assert g == init + [e];
      assert Names(g) == Names(init) + {e.name};
      DeletesIn(init, skip, a);
    }
  }

  /** The rename of the kept file, when its name is not the target. */
  function RenameKept(k: string, best: FileEntry): seq<Action> {
    if best.name != TargetName(k, best) then [Rename(best.name, TargetName(k, best))] else []
  }

  /** The actions for key `k`, as written: the kept file is renamed, then
      every other file of the group is deleted by its original name. */
  function KeyActions(k: string, best: FileEntry, group: seq<FileEntry>): seq<Action> {
    RenameKept(k, best) + Deletes(group, {best.name})
  }

  /** The actions for key `k`, corrected: a file of the group that already
      bears the target name is not deleted, because the rename has already
      put the kept file in its place. */
  function KeyActionsFixed(k: string, best: FileEntry, group: seq<FileEntry>): seq<Action> {
    RenameKept(k, best) + Deletes(group, {best.name, TargetName(k, best)})
  }

  /** The actions of the keys `ks`, visited in that order; `fixed` picks the
      corrected actions. */
  function Plan(best: map<string, FileEntry>, originals: map<string, seq<FileEntry>>, ks: seq<string>, fixed: bool): seq<Action>
    decreases |ks|
  {
    if ks == [] then []
    else
      var k := ks[|ks| - 1];
      Plan(best, originals, ks[..|ks| - 1], fixed) +
        if k !in best then []
        else if fixed then KeyActionsFixed(k, best[k], Lookup(originals, k))
        else KeyActions(k, best[k], Lookup(originals, k))
  }

  /** A deletion in the plan belongs to one of its keys' groups and is not
      the kept file of that key. */
  lemma {:induction false} PlanDeleteOf(best: map<string, FileEntry>, originals: map<string, seq<FileEntry>>, ks: seq<string>, fixed: bool, n: string)
    requires Delete(n) in Plan(best, originals, ks, fixed)
    ensures exists k :: k in ks && k in best && n in Names(Lookup(originals, k)) && n != best[k].name
    decreases |ks|
  {
    var k := ks[|ks| - 1];
    var init := ks[..|ks| - 1];
    if Delete(n) in Plan(best, originals, init, fixed) {
      PlanDeleteOf(best, originals, init, fixed, n);
      var k' :| k' in init && k' in best && n in Names(Lookup(originals, k')) && n != best[k'].name;
      assert k' in ks;
    } else {
      assert k in ks && k in best;
      var skip := if fixed then {best[k].name, TargetName(k, best[k])} else {best[k].name};
      DeletesIn(Lookup(originals, k), skip, Delete(n));
    }
  }

  /** `ks` lists each key of `keys` once. */
  ghost predicate Enumerates(ks: seq<string>, keys: set<string>) {
    Distinct(ks) && forall k :: k in ks <==> k in keys
  }

  /** `plan` is the plan of the listing for some order of its keys, as
      written or, when `fixed`, corrected. */
  ghost predicate IsFolderPlan(ds: seq<DirEntry>, allowed: Option<seq<string>>, key: string -> string, fixed: bool, plan: seq<Action>) {
    var best := Bests(ds, allowed, key);
    exists ks :: Enumerates(ks, best.Keys) && plan == Plan(best, Groups(ds, allowed, key), ks, fixed)
  }

  /** The actions for one key, as the loop over a group's files builds
      them; `fixed` also spares a file that bears the target name. */
  method KeyPlan(k: string, b: FileEntry, all: seq<FileEntry>, fixed: bool) returns (acts: seq<Action>)
    ensures acts == if fixed then KeyActionsFixed(k, b, all) else KeyActions(k, b, all)
  {
    var target := TargetName(k, b);
    var skip := if fixed then {b.name, target} else {b.name};
    acts := [];
    if b.name != target {
      acts := acts + [Rename(b.name, target)];
    }
    for j := 0 to |all|
      invariant acts == RenameKept(k, b) + Deletes(all[..j], skip)
    {
      DeletesSnoc(all, skip, j);
      AppendAssoc(RenameKept(k, b), Deletes(all[..j], skip), if all[j].name in skip then [] else [Delete(all[j].name)]);
      if all[j].name !in skip {
        acts := acts + [Delete(all[j].name)];
      }
    }
    TakeAll(all);
  }

  /** `process_one_group` on one folder's listing: the renames and
      deletions in the order they are done, and the number of keys. */
  method ProcessOneGroup(listing: seq<DirEntry>, allowed: Option<seq<string>>, key: string -> string, fixed: bool)
    returns (plan: seq<Action>, count: nat)
    ensures IsFolderPlan(listing, allowed, key, fixed, plan)
    ensures count == |Bests(listing, allowed, key).Keys|
  {
    var best, originals := CollectGroups(listing, allowed, key);
    var ks;
    plan, ks, count := PlanGroups(best, originals, fixed);
  }

  /** The groups and kept files one listing entry further on. */
  lemma CollectSnoc(listing: seq<DirEntry>, allowed: Option<seq<string>>, key: string -> string, i: nat)
    requires i < |listing|
    ensures var g, b, d := Groups(listing[..i], allowed, key), Bests(listing[..i], allowed, key), listing[i];
      && Groups(listing[..i + 1], allowed, key)
         == (if Accepted(d, allowed) then g[key(d.stem.value) := Lookup(g, key(d.stem.value)) + [ToFile(d)]] else g)
      && Bests(listing[..i + 1], allowed, key)
         == (if Accepted(d, allowed) && (key(d.stem.value) !in b || Better(ToFile(d), b[key(d.stem.value)]))
             then b[key(d.stem.value) := ToFile(d)] else b)
  {
    TakeTake(listing, i);
    assert listing[..i + 1][i] == listing[i];
  }

  /** The first pass of `process_one_group`: the files of each key and the
      file kept for it. */
  method CollectGroups(listing: seq<DirEntry>, allowed: Option<seq<string>>, key: string -> string)
    returns (best: map<string, FileEntry>, originals: map<string, seq<FileEntry>>)
    ensures best == Bests(listing, allowed, key)
    ensures originals == Groups(listing, allowed, key)
  {
    best := map[];
    originals := map[];
    for i := 0 to |listing|
      invariant best == Bests(listing[..i], allowed, key)
      invariant originals == Groups(listing[..i], allowed, key)
    {
      CollectSnoc(listing, allowed, key, i);
      var d := listing[i];
      if d.isFile && (allowed.Some? ==> d.ext.Some? && MapChars(AsciiLower, d.ext.value) in allowed.value) {
        if d.stem.Some? {
          var k := key(d.stem.value);
          var e := ToFile(d);
          originals := originals[k := (if k in originals then originals[k] else []) + [e]];
          if k !in best {
            best := best[k := e];
          } else if Better(e, best[k]) {
            best := best[k := e];
          }
        }
      }
    }
    TakeAll(listing);
  }

  /** The second pass of `process_one_group`: the keys are visited in an
      unspecified order `ks` (the iteration order of a hash map); each
      appends its actions and counts one. */
  method PlanGroups(best: map<string, FileEntry>, originals: map<string, seq<FileEntry>>, fixed: bool)
    returns (plan: seq<Action>, ks: seq<string>, count: nat)
    ensures Enumerates(ks, best.Keys)
    ensures plan == Plan(best, originals, ks, fixed) && count == |best.Keys|
  {
    plan, ks := [], [];
    count := 0;
    var keys := best.Keys;
    while keys != {}
      invariant keys <= best.Keys
      invariant count + |keys| == |best.Keys|
      invariant Distinct(ks) && forall k :: k in ks <==> k in best.Keys - keys
      invariant plan == Plan(best, originals, ks, fixed)
      decreases |keys|
    {
      var k :| k in keys;
      var acts := KeyPlan(k, best[k], if k in originals then originals[k] else [], fixed);
      DistinctSnoc(ks, k);
      assert (ks + [k])[..|ks|] == ks;
      plan := plan + acts;
      ks := ks + [k];
      keys := keys - {k};
      count := count + 1;
    }
  }

  /** Only files that took part in the grouping are ever deleted. */
  lemma PlanDeletesOnlyGrouped(ds: seq<DirEntry>, allowed: Option<seq<string>>, key: string -> string, fixed: bool, plan: seq<Action>, n: string)
    requires IsFolderPlan(ds, allowed, key, fixed, plan)
    requires Delete(n) in plan
    ensures exists i :: 0 <= i < |ds| && Accepted(ds[i], allowed) && ds[i].name == n
  {
    var best, groups := Bests(ds, allowed, key), Groups(ds, allowed, key);
    var ks :| Enumerates(ks, best.Keys) && plan == Plan(best, groups, ks, fixed);
    PlanDeleteOf(best, groups, ks, fixed, n);
    var k :| k in ks && k in best && n in Names(Lookup(groups, k)) && n != best[k].name;
    var e :| e in Lookup(groups, k) && e.name == n;
    GroupsMembers(ds, allowed, key, k, e);
  }

  /** File names of a listing are distinct, as in any directory. */
  predicate NamesDistinct(ds: seq<DirEntry>) {
    forall i, j :: 0 <= i < j < |ds| ==> ds[i].name != ds[j].name
  }

  /** In a listing of distinct names, the kept file of key `k` belongs to
      no other key's group. */
  lemma KeptNameOneKey(ds: seq<DirEntry>, allowed: Option<seq<string>>, key: string -> string, k: string, k': string)
    requires NamesDistinct(ds)
    requires k in Bests(ds, allowed, key)
    requires Bests(ds, allowed, key)[k].name in Names(Lookup(Groups(ds, allowed, key), k'))
    ensures k' == k
  {
    var best, groups := Bests(ds, allowed, key), Groups(ds, allowed, key);
    BestsFoldGroups(ds, allowed, key);
    FoldBestIn(groups[k]);
    GroupsMembers(ds, allowed, key, k, best[k]);
    var i :| 0 <= i < |ds| && Accepted(ds[i], allowed) && key(ds[i].stem.value) == k && ToFile(ds[i]) == best[k];
    var e' :| e' in Lookup(groups, k') && e'.name == best[k].name;
    GroupsMembers(ds, allowed, key, k', e');
    var j :| 0 <= j < |ds| && Accepted(ds[j], allowed) && key(ds[j].stem.value) == k' && ToFile(ds[j]) == e';
    assert ds[j].name == ds[i].name;
  }

  /** No deletion names the file kept for a key. */
  lemma PlanKeepsBests(ds: seq<DirEntry>, allowed: Option<seq<string>>, key: string -> string, fixed: bool, plan: seq<Action>, k: string)
    requires NamesDistinct(ds)
    requires IsFolderPlan(ds, allowed, key, fixed, plan)
    requires k in Bests(ds, allowed, key)
    ensures Delete(Bests(ds, allowed, key)[k].name) !in plan
  {
    var best, groups := Bests(ds, allowed, key), Groups(ds, allowed, key);
    var n := best[k].name;
    if Delete(n) in plan {
      var ks :| Enumerates(ks, best.Keys) && plan == Plan(best, groups, ks, fixed);
      PlanDeleteOf(best, groups, ks, fixed, n);
      var k' :| k' in ks && k' in best && n in Names(Lookup(groups, k')) && n != best[k'].name;
      KeptNameOneKey(ds, allowed, key, k, k');
    }
  }

  // ---------------------------------------------------------------------
  // Effect on the folder

  /** A folder: each file name holds the content that was first stored
      under some name (its own name, before anything is renamed). */
  type Folder = map<string, string>

  /** `fs::rename` and `fs::remove_file`. A rename of a missing file fails,
      and the `?` after it ends `process_one_group` with the error; a
      rename onto an existing name replaces that file. A failed deletion is
      only reported. */
  function Perform(f: Folder, a: Action): Option<Folder> {
    match a
    case Rename(from, to) => if from in f then Some((f - {from})[to := f[from]]) else None
    case Delete(n) => Some(f - {n})
  }

  /** The actions in order; the first failing one stops the run. */
  function Run(f: Folder, acts: seq<Action>): Option<Folder>
    decreases |acts|
  {
    if acts == [] then Some(f)
    else
      match Run(f, acts[..|acts| - 1])
      case None => None
      case Some(g) => Perform(g, acts[|acts| - 1])
  }

  /** Running two lists of actions in turn is running their concatenation. */
  lemma {:induction false} RunAppend(f: Folder, a: seq<Action>, b: seq<Action>)
    ensures Run(f, a + b) == match Run(f, a) case None => None case Some(g) => Run(g, b)
    decreases |b|
  {
    if b == [] {
      assert a + b == a;
    } else {
      RunAppend(f, a, b[..|b| - 1]);
      assert (a + b)[..|a + b| - 1] == a + b[..|b| - 1];
    }
  }

  /** Removing a set of names and then one more is removing both. */
  lemma MinusMinus(f: Folder, xs: set<string>, x: string)
    ensures f - xs - {x} == f - (xs + {x})
  {
  }

  /** One deletion removes its name. */
  lemma RunOneDelete(f: Folder, n: string)
    ensures Run(f, [Delete(n)]) == Some(f - {n})
  {
    assert [Delete(n)][..0] == [];
  }

  /** The names of a group with one more file. */
  lemma NamesSnoc(g: seq<FileEntry>, e: FileEntry)
    ensures Names(g + [e]) == Names(g) + {e.name}
  {
    assert forall x :: x in g + [e] <==> x in g || x == e;
  }

  /** Skipping the new name leaves the names to remove as they were;
      otherwise it joins them. */
  lemma SkipSnoc(ns: set<string>, x: string, skip: set<string>)
    ensures (ns + {x}) - skip == if x in skip then ns - skip else (ns - skip) + {x}
  {
  }

  /** The deletions remove exactly the names they list. */
  lemma {:induction false} RunDeletes(f: Folder, g: seq<FileEntry>, skip: set<string>)
    ensures Run(f, Deletes(g, skip)) == Some(f - (Names(g) - skip))
    decreases |g|
  {
    if g == [] {
      assert Names(g) - skip == {};
      assert f - {} == f;
    } else {
      var init, e := g[..|g| - 1], g[|g| - 1];
      assert g == init + [e];
      NamesSnoc(init, e);
      SkipSnoc(Names(init), e.name, skip);
      RunDeletes(f, init, skip);
      var f1 := f - (Names(init) - skip);
      if e.name in skip {
        assert Deletes(g, skip) == Deletes(init, skip);
      } else {
        assert Deletes(g, skip) == Deletes(init, skip) + [Delete(e.name)];
        RunThen(f, Deletes(init, skip), [Delete(e.name)], f1);
        RunOneDelete(f1, e.name);
        MinusMinus(f, Names(init) - skip, e.name);
      }
    }
  }

  /** The rename of the kept file moves its content to the target name. */
  lemma RunRenameKept(f: Folder, k: string, best: FileEntry)
    requires best.name in f
    ensures Run(f, RenameKept(k, best)) == Some(Renamed(f, best.name, TargetName(k, best)))
  {
    var acts := RenameKept(k, best);
    if acts != [] {
      assert acts[..0] == [];
    }
  }

  /** A run that reaches `g` continues from `g`. */
  lemma RunThen(f: Folder, a: seq<Action>, b: seq<Action>, g: Folder)
    requires Run(f, a) == Some(g)
    ensures Run(f, a + b) == Run(g, b)
  {
    RunAppend(f, a, b);
  }

  /** The folder after renaming `b` to `t` (when they differ). */
  function Renamed(f: Folder, b: string, t: string): Folder
    requires b in f
  {
    if b != t then (f - {b})[t := f[b]] else f
  }

  /** Renaming `b` to `t` and then deleting the other names of the group,
      as written: `t` goes too when it is one of them. */
  lemma AsWrittenFolder(f: Folder, n: set<string>, b: string, t: string)
    requires b in n && b in f
    ensures Renamed(f, b, t) - (n - {b}) == if b != t && t in n then f - n else (f - n)[t := f[b]]
  {
  }

  /** Renaming `b` to `t` and then deleting the names of the group other
      than `b` and `t`. */
  lemma FixedFolder(f: Folder, n: set<string>, b: string, t: string)
    requires b in n && b in f
    ensures Renamed(f, b, t) - (n - {b, t}) == (f - n)[t := f[b]]
  {
  }

  /** As written: when another file of the group already bears the target
      name, the folder loses every file of the group, the kept one
      included; otherwise only the kept file is left, under the target
      name. The rest of the folder is as it was, save a file outside the
      group that bore the target name, which the rename replaces. */
  lemma KeyActionsEffect(f: Folder, k: string, best: FileEntry, group: seq<FileEntry>)
    requires best in group && best.name in f
    ensures var t := TargetName(k, best);
      Run(f, KeyActions(k, best, group)) ==
      if best.name != t && t in Names(group) then Some(f - Names(group))
      else Some((f - Names(group))[t := f[best.name]])
  {
    var t, b, n := TargetName(k, best), best.name, Names(group);
    RunRenameKept(f, k, best);
    RunThen(f, RenameKept(k, best), Deletes(group, {b}), Renamed(f, b, t));
    RunDeletes(Renamed(f, b, t), group, {b});
    assert b in n;
    AsWrittenFolder(f, n, b, t);
  }

  /** As written, a kept file whose target name is taken by another file of
      its group is deleted after the rename: its content is nowhere in the
      folder afterwards. */
  lemma KeptFileLostAsWritten(f: Folder, k: string, best: FileEntry, group: seq<FileEntry>)
    requires best in group && best.name in f
    requires best.name != TargetName(k, best) && TargetName(k, best) in Names(group)
    requires forall n :: n in f && f[n] == f[best.name] ==> n == best.name
    ensures Run(f, KeyActions(k, best, group)).Some?
    ensures forall n :: n in Run(f, KeyActions(k, best, group)).value ==>
      Run(f, KeyActions(k, best, group)).value[n] != f[best.name]
  {
    KeyActionsEffect(f, k, best, group);
    assert best.name in Names(group);
  }

  /** Of two unaccented files the larger is kept. */
  lemma LargerKept(big: FileEntry, small: FileEntry)
    requires forall i :: 0 <= i < |big.stem| ==> IsAscii(big.stem[i])
    requires forall i :: 0 <= i < |small.stem| ==> IsAscii(small.stem[i])
    requires small.size < big.size
    ensures FoldBest([big, small]) == big
  {
    assert [big, small][..1] == [big];
  }

  /** A kept file `big` whose target is the name of the other file `small`
      of its group: `big` is renamed onto `small`, which is then deleted,
      and the folder of the two is left empty. */
  lemma TargetSiblingLost(k: string, big: FileEntry, small: FileEntry)
    requires big.name != small.name && small.name == TargetName(k, big)
    ensures KeyActions(k, big, [big, small]) == [Rename(big.name, small.name), Delete(small.name)]
    ensures Run(map[big.name := big.name, small.name := small.name], KeyActions(k, big, [big, small])) == Some(map[])
  {
    var g := [big, small];
    assert g[..1] == [big] && [big][..0] == [];
    assert Deletes([big], {big.name}) == [];
    var f: Folder := map[big.name := big.name, small.name := small.name];
    assert Names(g) == {big.name, small.name};
    KeyActionsEffect(f, k, big, g);
    assert f - Names(g) == map[];
  }

  /** "Dune!.epub" (2 bytes) and "Dune.epub" (1 byte) share the key
      "dune": the larger file is kept and renamed to "Dune.epub", replacing
      the smaller one, and the deletion of "Dune.epub" then removes it, so
      the folder is left with neither. */
  lemma DuneLostAsWritten()
    ensures var big, small := FileEntry("Dune!.epub", "Dune!", "epub", 2), FileEntry("Dune.epub", "Dune", "epub", 1);
      FoldBest([big, small]) == big &&
      KeyActions("dune", big, [big, small]) == [Rename("Dune!.epub", "Dune.epub"), Delete("Dune.epub")] &&
      Run(map["Dune!.epub" := "Dune!.epub", "Dune.epub" := "Dune.epub"], KeyActions("dune", big, [big, small])) == Some(map[])
  {
    var big, small := FileEntry("Dune!.epub", "Dune!", "epub", 2), FileEntry("Dune.epub", "Dune", "epub", 1);
    LargerKept(big, small);
    assert CapitalizeFirst("dune") == "Dune";
    assert TargetName("dune", big) == "Dune.epub";
    TargetSiblingLost("dune", big, small);
  }

  /** Skipping a name no file of the group bears changes nothing. */
  lemma {:induction false} DeletesSkipUnused(g: seq<FileEntry>, skip: set<string>, n: string)
    requires n !in Names(g)
    ensures Deletes(g, skip + {n}) == Deletes(g, skip)
    decreases |g|
  {
    if g != [] {
      var init := g[..|g| - 1];
      assert g == init + [g[|g| - 1]];
      assert Names(g) == Names(init) + {g[|g| - 1].name};
      DeletesSkipUnused(init, skip, n);
    }
  }

  /** Where no other file of the group bears the target name, the program
      as written and the corrected actions coincide. */
  lemma AsWrittenAgrees(k: string, best: FileEntry, group: seq<FileEntry>)
    requires best.name == TargetName(k, best) || TargetName(k, best) !in Names(group)
    ensures KeyActions(k, best, group) == KeyActionsFixed(k, best, group)
  {
    var t := TargetName(k, best);
    if t == best.name {
      assert {best.name, t} == {best.name};
    } else {
      DeletesSkipUnused(group, {best.name}, t);
      assert {best.name} + {t} == {best.name, t};
    }
  }

  /** Corrected: of the group only the kept file is left, under the target
      name; the rest of the folder is as it was, save a file outside the
      group that bore the target name, which the rename replaces. */
  lemma KeyKeepsOne(f: Folder, k: string, best: FileEntry, group: seq<FileEntry>)
    requires best in group && best.name in f
    ensures Run(f, KeyActionsFixed(k, best, group)) ==
      Some((f - Names(group))[TargetName(k, best) := f[best.name]])
  {
    var t, b, n := TargetName(k, best), best.name, Names(group);
    RunRenameKept(f, k, best);
    RunThen(f, RenameKept(k, best), Deletes(group, {b, t}), Renamed(f, b, t));
    RunDeletes(Renamed(f, b, t), group, {b, t});
    assert b in n;
    FixedFolder(f, n, b, t);
  }

  /** The names the actions of key `k` touch: its group's files and its
      target. */
  function Touched(best: map<string, FileEntry>, originals: map<string, seq<FileEntry>>, k: string): set<string> {
    if k in best then Names(Lookup(originals, k)) + {TargetName(k, best[k])} else {}
  }

  /** No two keys of `ks` touch the same name. */
  predicate Apart(best: map<string, FileEntry>, originals: map<string, seq<FileEntry>>, ks: seq<string>) {
    forall i, j :: 0 <= i < j < |ks| ==> Touched(best, originals, ks[i]) !! Touched(best, originals, ks[j])
  }

  /** Every key's kept content sits under the key's target name. */
  predicate TargetsKept(f: Folder, r: Folder, best: map<string, FileEntry>, ks: seq<string>)
    requires forall k :: k in ks ==> k in best && best[k].name in f
  {
    forall i :: 0 <= i < |ks| ==>
      TargetName(ks[i], best[ks[i]]) in r && r[TargetName(ks[i], best[ks[i]])] == f[best[ks[i]].name]
  }

  /** No file of a key's group survives except under the key's target. */
  predicate OthersGone(r: Folder, best: map<string, FileEntry>, originals: map<string, seq<FileEntry>>, ks: seq<string>)
    requires forall k :: k in ks ==> k in best
  {
    forall i, n :: 0 <= i < |ks| && n in Names(Lookup(originals, ks[i])) && n != TargetName(ks[i], best[ks[i]]) ==> n !in r
  }

  /** Every name no key touches holds what it held. */
  predicate UntouchedSame(f: Folder, r: Folder, best: map<string, FileEntry>, originals: map<string, seq<FileEntry>>, ks: seq<string>) {
    forall n :: n in f && (forall i :: 0 <= i < |ks| ==> n !in Touched(best, originals, ks[i])) ==> n in r && r[n] == f[n]
  }

  /** The only new names are targets. */
  predicate NothingNew(f: Folder, r: Folder, best: map<string, FileEntry>, ks: seq<string>)
    requires forall k :: k in ks ==> k in best
  {
    forall n :: n in r ==> n in f || exists i :: 0 <= i < |ks| && n == TargetName(ks[i], best[ks[i]])
  }

  /** What the corrected plan leaves in the folder: each key's kept file
      under its target name, no other file of any group, every name no key
      touches as it was, and nothing else. */
  predicate KeepsOnePerKey(f: Folder, r: Folder, best: map<string, FileEntry>, originals: map<string, seq<FileEntry>>, ks: seq<string>)
    requires forall k :: k in ks ==> k in best && best[k].name in f
  {
    TargetsKept(f, r, best, ks) && OthersGone(r, best, originals, ks)
    && UntouchedSame(f, r, best, originals, ks) && NothingNew(f, r, best, ks)
  }

  lemma TargetsSnoc(f: Folder, r0: Folder, best: map<string, FileEntry>, originals: map<string, seq<FileEntry>>, init: seq<string>, k: string)
    requires forall k' :: k' in init + [k] ==> k' in best && best[k'].name in f
    requires TargetsKept(f, r0, best, init)
    requires forall i :: 0 <= i < |init| ==> TargetName(init[i], best[init[i]]) !in Touched(best, originals, k)
    ensures TargetsKept(f, (r0 - Names(Lookup(originals, k)))[TargetName(k, best[k]) := f[best[k].name]], best, init + [k])
  {
    var ks := init + [k];
    forall i | 0 <= i < |ks|
      ensures TargetName(ks[i], best[ks[i]]) in (r0 - Names(Lookup(originals, k)))[TargetName(k, best[k]) := f[best[k].name]]
      ensures (r0 - Names(Lookup(originals, k)))[TargetName(k, best[k]) := f[best[k].name]][TargetName(ks[i], best[ks[i]])] == f[best[ks[i]].name]
    {
      if i < |init| {
        assert ks[i] == init[i];
      }
    }
  }

  lemma OthersSnoc(r0: Folder, v: string, best: map<string, FileEntry>, originals: map<string, seq<FileEntry>>, init: seq<string>, k: string)
    requires forall k' :: k' in init + [k] ==> k' in best
    requires OthersGone(r0, best, originals, init)
    requires forall i :: 0 <= i < |init| ==> TargetName(k, best[k]) !in Touched(best, originals, init[i])
    ensures OthersGone((r0 - Names(Lookup(originals, k)))[TargetName(k, best[k]) := v], best, originals, init + [k])
  {
    var ks := init + [k];
    forall i, n | 0 <= i < |ks| && n in Names(Lookup(originals, ks[i])) && n != TargetName(ks[i], best[ks[i]])
      ensures n !in (r0 - Names(Lookup(originals, k)))[TargetName(k, best[k]) := v]
    {
      if i < |init| {
        assert ks[i] == init[i];
      }
    }
  }

  lemma UntouchedSnoc(f: Folder, r0: Folder, v: string, best: map<string, FileEntry>, originals: map<string, seq<FileEntry>>, init: seq<string>, k: string)
    requires k in best
    requires UntouchedSame(f, r0, best, originals, init)
    ensures UntouchedSame(f, (r0 - Names(Lookup(originals, k)))[TargetName(k, best[k]) := v], best, originals, init + [k])
  {
    var ks := init + [k];
    forall n | n in f && (forall i :: 0 <= i < |ks| ==> n !in Touched(best, originals, ks[i]))
      ensures n in (r0 - Names(Lookup(originals, k)))[TargetName(k, best[k]) := v]
      ensures (r0 - Names(Lookup(originals, k)))[TargetName(k, best[k]) := v][n] == f[n]
    {
      assert n !in Touched(best, originals, ks[|init|]);
      forall i | 0 <= i < |init| ensures n !in Touched(best, originals, init[i]) {
        assert ks[i] == init[i];
      }
    }
  }

  lemma NothingNewSnoc(f: Folder, r0: Folder, v: string, best: map<string, FileEntry>, originals: map<string, seq<FileEntry>>, init: seq<string>, k: string)
    requires forall k' :: k' in init + [k] ==> k' in best
    requires NothingNew(f, r0, best, init)
    ensures NothingNew(f, (r0 - Names(Lookup(originals, k)))[TargetName(k, best[k]) := v], best, init + [k])
  {
    var ks := init + [k];
    forall n | n in (r0 - Names(Lookup(originals, k)))[TargetName(k, best[k]) := v]
      ensures n in f || exists i :: 0 <= i < |ks| && n == TargetName(ks[i], best[ks[i]])
    {
      if n == TargetName(k, best[k]) {
        assert n == TargetName(ks[|init|], best[ks[|init|]]);
      } else if n !in f {
        var i :| 0 <= i < |init| && n == TargetName(init[i], best[init[i]]);
        assert n == TargetName(ks[i], best[ks[i]]);
      }
    }
  }

  /** The last key of an apart sequence touches nothing an earlier one
      touches, and the earlier ones are apart. */
  lemma ApartSnoc(best: map<string, FileEntry>, originals: map<string, seq<FileEntry>>, init: seq<string>, k: string)
    requires Apart(best, originals, init + [k])
    ensures Apart(best, originals, init)
    ensures forall i :: 0 <= i < |init| ==> Touched(best, originals, init[i]) !! Touched(best, originals, k)
  {
    var ks := init + [k];
    forall i | 0 <= i < |init| ensures Touched(best, originals, init[i]) !! Touched(best, originals, k) {
      assert ks[i] == init[i] && ks[|init|] == k;
    }
    forall i, j | 0 <= i < j < |init| ensures Touched(best, originals, init[i]) !! Touched(best, originals, init[j]) {
      assert ks[i] == init[i] && ks[j] == init[j];
    }
  }

  /** The kept file of a key that no earlier key touches still holds its
      content after the earlier keys' actions. */
  lemma KeptUntouched(f: Folder, r0: Folder, best: map<string, FileEntry>, originals: map<string, seq<FileEntry>>, init: seq<string>, k: string)
    requires k in best && best[k] in Lookup(originals, k) && best[k].name in f
    requires UntouchedSame(f, r0, best, originals, init)
    requires forall i :: 0 <= i < |init| ==> Touched(best, originals, init[i]) !! Touched(best, originals, k)
    ensures best[k].name in r0 && r0[best[k].name] == f[best[k].name]
  {
    assert best[k].name in Names(Lookup(originals, k));
    assert best[k].name in Touched(best, originals, k);
  }

  /** The corrected plan for one more key runs that key's actions on what
      the plan so far left. */
  lemma RunFixedSnoc(f: Folder, r0: Folder, best: map<string, FileEntry>, originals: map<string, seq<FileEntry>>, init: seq<string>, k: string)
    requires Run(f, Plan(best, originals, init, true)) == Some(r0)
    requires k in best && best[k] in Lookup(originals, k) && best[k].name in r0
    ensures Run(f, Plan(best, originals, init + [k], true))
         == Some((r0 - Names(Lookup(originals, k)))[TargetName(k, best[k]) := r0[best[k].name]])
  {
    var ks := init + [k];
    assert ks[..|ks| - 1] == init;
    var acts := KeyActionsFixed(k, best[k], Lookup(originals, k));
    assert Plan(best, originals, ks, true) == Plan(best, originals, init, true) + acts;
    RunThen(f, Plan(best, originals, init, true), acts, r0);
    KeyKeepsOne(r0, k, best[k], Lookup(originals, k));
  }

  /** One more key, apart from the earlier ones, keeps the description of
      the folder true. */
  lemma FolderStep(f: Folder, r0: Folder, best: map<string, FileEntry>, originals: map<string, seq<FileEntry>>, init: seq<string>, k: string)
    requires forall k' :: k' in init + [k] ==> k' in best && best[k'].name in f
    requires best[k] in Lookup(originals, k)
    requires forall i :: 0 <= i < |init| ==> Touched(best, originals, init[i]) !! Touched(best, originals, k)
    requires Run(f, Plan(best, originals, init, true)) == Some(r0)
    requires KeepsOnePerKey(f, r0, best, originals, init)
    ensures Run(f, Plan(best, originals, init + [k], true)).Some?
    ensures KeepsOnePerKey(f, Run(f, Plan(best, originals, init + [k], true)).value, best, originals, init + [k])
  {
    KeptUntouched(f, r0, best, originals, init, k);
    RunFixedSnoc(f, r0, best, originals, init, k);
    var v := f[best[k].name];
    assert TargetName(k, best[k]) in Touched(best, originals, k);
    forall i | 0 <= i < |init| ensures TargetName(init[i], best[init[i]]) !in Touched(best, originals, k) {
      assert TargetName(init[i], best[init[i]]) in Touched(best, originals, init[i]);
    }
    TargetsSnoc(f, r0, best, originals, init, k);
    OthersSnoc(r0, v, best, originals, init, k);
    UntouchedSnoc(f, r0, v, best, originals, init, k);
    NothingNewSnoc(f, r0, v, best, originals, init, k);
  }

  /** Corrected, for a whole folder: when no two keys touch the same name,
      the plan runs through and leaves exactly one file per key, the kept
      one, under its target name; every name no key touches is as it was,
      and no other name appears. */
  lemma {:induction false} FolderKeepsOne(f: Folder, best: map<string, FileEntry>, originals: map<string, seq<FileEntry>>, ks: seq<string>)
    requires forall k :: k in ks ==> k in best && best[k] in Lookup(originals, k) && best[k].name in f
    requires Apart(best, originals, ks)
    ensures Run(f, Plan(best, originals, ks, true)).Some?
    ensures KeepsOnePerKey(f, Run(f, Plan(best, originals, ks, true)).value, best, originals, ks)
    decreases |ks|
  {
    if ks == [] {
      assert Plan(best, originals, ks, true) == [];
    } else {
      var init, k := ks[..|ks| - 1], ks[|ks| - 1];
      assert ks == init + [k];
      ApartSnoc(best, originals, init, k);
      FolderKeepsOne(f, best, originals, init);
      FolderStep(f, Run(f, Plan(best, originals, init, true)).value, best, originals, init, k);
    }
  }

  /** Where no kept file's target is taken by another file of its group,
      the plan as written is the corrected plan, so it too keeps one file
      per key. */
  lemma {:induction false} PlanAsWrittenAgrees(best: map<string, FileEntry>, originals: map<string, seq<FileEntry>>, ks: seq<string>)
    requires forall k :: k in ks && k in best ==>
      best[k].name == TargetName(k, best[k]) || TargetName(k, best[k]) !in Names(Lookup(originals, k))
    ensures Plan(best, originals, ks, false) == Plan(best, originals, ks, true)
    decreases |ks|
  {
    if ks != [] {
      var k := ks[|ks| - 1];
      PlanAsWrittenAgrees(best, originals, ks[..|ks| - 1]);
      if k in best {
        AsWrittenAgrees(k, best[k], Lookup(originals, k));
      }
    }
  }

  lemma {:induction false} FoldBestIn(g: seq<FileEntry>)
    requires g != []
    ensures FoldBest(g) in g
    decreases |g|
  {
    if |g| > 1 {
      FoldBestIn(g[..|g| - 1]);
    }
  }

  /** The count of a folder is its number of distinct keys. */
  lemma CountIsKeys(ds: seq<DirEntry>, allowed: Option<seq<string>>, key: string -> string)
    ensures |Bests(ds, allowed, key).Keys| == |KeysOf(ds, allowed, key)|
  {
    BestsFoldGroups(ds, allowed, key);
    GroupKeys(ds, allowed, key);
  }

  // ---------------------------------------------------------------------
  // Author folder

  /** Keys counted over the folders of an author. */
  function TotalKeys(groups: seq<seq<DirEntry>>, allowed: Option<seq<string>>, key: string -> string): nat {
    if groups == [] then 0
    else TotalKeys(groups[..|groups| - 1], allowed, key) + |KeysOf(groups[|groups| - 1], allowed, key)|
  }

  lemma TotalKeysSnoc(groups: seq<seq<DirEntry>>, allowed: Option<seq<string>>, key: string -> string, i: nat)
    requires i < |groups|
    ensures TotalKeys(groups[..i + 1], allowed, key) == TotalKeys(groups[..i], allowed, key) + |KeysOf(groups[i], allowed, key)|
  {
    TakeTake(groups, i);
  }

  /** `process_author_dir`: the author folder itself, then each of its
      sub-folders, each treated as one group; one plan per folder, and the
      count is the sum. */
  method ProcessAuthorDir(root: seq<DirEntry>, subdirs: seq<seq<DirEntry>>, allowed: Option<seq<string>>, key: string -> string, fixed: bool)
    returns (plans: seq<seq<Action>>, count: nat)
    ensures |plans| == 1 + |subdirs|
    ensures forall i :: 0 <= i < |plans| ==> IsFolderPlan(([root] + subdirs)[i], allowed, key, fixed, plans[i])
    ensures count == TotalKeys([root] + subdirs, allowed, key)
  {
    var groups := [root] + subdirs;
    var plan;
    plan, count := ProcessOneGroup(root, allowed, key, fixed);
    plans := [plan];
    CountIsKeys(root, allowed, key);
    assert groups[..1] == [root];
    for i := 1 to |groups|
      invariant |plans| == i
      invariant forall j :: 0 <= j < i ==> IsFolderPlan(groups[j], allowed, key, fixed, plans[j])
      invariant count == TotalKeys(groups[..i], allowed, key)
    {
      var p, c := ProcessOneGroup(groups[i], allowed, key, fixed);
      CountIsKeys(groups[i], allowed, key);
      TotalKeysSnoc(groups, allowed, key, i);
      forall j | 0 <= j < i + 1
        ensures IsFolderPlan(groups[j], allowed, key, fixed, (plans + [p])[j])
      {
        if j < i {
          assert (plans + [p])[j] == plans[j];
        }
      }
      plans := plans + [p];
      count := count + c;
    }
    TakeAll(groups);
  }
}
