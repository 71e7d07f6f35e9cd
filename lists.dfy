/**
  Sequences without repeats, and the first-occurrence de-duplication that
  the tools perform with a `seen` set beside an output list.
 */
module Lists {

  /** No element occurs twice. */
  predicate Distinct<T(==)>(xs: seq<T>) {
    forall i, j :: 0 <= i < j < |xs| ==> xs[i] != xs[j]
  }

  lemma DistinctSnoc<T>(xs: seq<T>, x: T)
    requires Distinct(xs) && x !in xs
    ensures Distinct(xs + [x])
  {
  }

  lemma AppendAssoc<T>(x: seq<T>, y: seq<T>, z: seq<T>)
    ensures x + (y + z) == x + y + z
  {
  }

  lemma HeadTail<T>(x: seq<T>, y: seq<T>)
    requires x != []
    ensures (x + y)[0] == x[0] && (x + y)[1..] == x[1..] + y
  {
  }

  lemma InitLast<T>(xs: seq<T>)
    requires xs != []
    ensures xs == xs[..|xs| - 1] + [xs[|xs| - 1]]
  {
  }

  lemma TakeSnoc<T>(xs: seq<T>, i: nat)
    requires i < |xs|
    ensures xs[..i + 1] == xs[..i] + [xs[i]]
  {
  }

  lemma TakeTake<T>(xs: seq<T>, i: nat)
    requires i < |xs|
    ensures xs[..i + 1][..i] == xs[..i]
  {
  }

  lemma InitOfSnoc<T>(xs: seq<T>, x: T)
    ensures (xs + [x])[..|xs|] == xs
  {
  }

  lemma PrefixTrans<T>(a: seq<T>, b: seq<T>, c: seq<T>)
    requires a <= b && b <= c
    ensures a <= c
  {
  }

  lemma AppendNil<T>(xs: seq<T>)
    ensures xs + [] == xs
  {
  }

  lemma TakeAll<T>(xs: seq<T>)
    ensures xs[..|xs|] == xs
  {
  }

  lemma SliceSnoc<T>(xs: seq<T>, lo: nat, i: nat)
    requires lo <= i < |xs|
    ensures xs[lo..i + 1] == xs[lo..i] + [xs[i]]
  {
  }

  lemma SliceOfAppend<T>(xs: seq<T>, ys: seq<T>, lo: nat, hi: nat)
    requires lo <= hi <= |ys|
    ensures (xs + ys)[|xs| + lo..|xs| + hi] == ys[lo..hi]
  {
  }

  lemma SplitAround<T>(a: seq<T>, x: T, b: seq<T>)
    ensures (a + [x] + b)[..|a|] == a && (a + [x] + b)[|a| + 1..] == b
  {
  }

  /** The elements of `xs` in the order of their first occurrence. */
  function Dedup<T(==,!new)>(xs: seq<T>): (r: seq<T>)
    ensures Distinct(r)
    ensures forall x :: x in r <==> x in xs
    ensures |r| <= |xs|
  {
    if xs == [] then []
    else
      var init, last := xs[..|xs| - 1], xs[|xs| - 1];
      assert xs == init + [last];
      var d := Dedup(init);
      if last in d then d else DistinctSnoc(d, last); d + [last]
  }

  /** One more element is kept exactly when it is new. */
  lemma DedupSnoc<T(!new)>(xs: seq<T>, x: T)
    ensures Dedup(xs + [x]) == if x in Dedup(xs) then Dedup(xs) else Dedup(xs) + [x]
  {
    assert (xs + [x])[..|xs|] == xs;
  }

  /** Once an element has been kept, later input never moves it: the
      de-duplication of a prefix is a prefix of the de-duplication. */
  lemma {:induction false} DedupPrefix<T(!new)>(xs: seq<T>, ys: seq<T>)
    ensures Dedup(xs) <= Dedup(xs + ys)
    decreases |ys|
  {
    if ys == [] {
      assert xs + ys == xs;
    } else {
      var init := ys[..|ys| - 1];
      assert (xs + ys)[..|xs + ys| - 1] == xs + init;
      DedupPrefix(xs, init);
    }
  }

  /** Input that is already free of repeats is kept as it is. */
  lemma {:induction false} DedupDistinct<T(!new)>(xs: seq<T>)
    requires Distinct(xs)
    ensures Dedup(xs) == xs
  {
    if xs != [] {
      var init := xs[..|xs| - 1];
      DedupDistinct(init);
      assert xs[|xs| - 1] !in init;
      assert xs == init + [xs[|xs| - 1]];
    }
  }
}
