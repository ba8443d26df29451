/** Order-preserving de-duplication, Python's `list(dict.fromkeys(xs))`:
    every element is kept at its first occurrence and later repeats are
    dropped. The crawler uses it for the links of one search page, for the
    links of one backend response, for the candidate page URLs and for the
    final link list of a run. */
module FirstSeen {

  predicate NoDups<T(==,!new)>(s: seq<T>) {
    forall i, j :: 0 <= i < j < |s| ==> s[i] != s[j]
  }

  /** The set of elements of a sequence. */
  function Elems<T(==,!new)>(s: seq<T>): set<T> {
    set x | x in s
  }

  /** `list(dict.fromkeys(xs))`: a dictionary keeps each key at the position
      where it was first inserted, so re-inserting a key changes nothing. */
  function Dedup<T(==,!new)>(xs: seq<T>): (r: seq<T>)
    ensures NoDups(r)
    ensures forall x :: x in r <==> x in xs
    ensures |r| <= |xs|
  {
    if xs == [] then []
    else
      var d := Dedup(xs[..|xs| - 1]);
      var x := xs[|xs| - 1];
      assert forall y :: y in xs <==> y in xs[..|xs| - 1] || y == x by {
        assert xs == xs[..|xs| - 1] + [x];
      }
      if x in d then d else d + [x]
  }

  /** Index of the first occurrence of `x` in `xs`. */
  function FirstIndex<T(==,!new)>(xs: seq<T>, x: T): (i: nat)
    requires x in xs
    ensures i < |xs| && xs[i] == x
    ensures forall k :: 0 <= k < i ==> xs[k] != x
  {
    if xs[0] == x then 0 else 1 + FirstIndex(xs[1..], x)
  }

  /** The first occurrence of an element in a prefix is its first occurrence
      in the whole sequence. */
  lemma FirstIndexInPrefix<T(!new)>(xs: seq<T>, n: nat, x: T)
    requires n <= |xs| && x in xs[..n]
    ensures x in xs && FirstIndex(xs, x) == FirstIndex(xs[..n], x)
  {
    var i := FirstIndex(xs[..n], x);
    assert xs[i] == x;
    var j := FirstIndex(xs, x);
    assert j <= i;
    assert xs[..n][j] == x;
  }

  /** `Dedup` keeps elements in the order of their first occurrences. */
  lemma {:induction false} DedupKeepsFirstOccurrenceOrder<T(!new)>(xs: seq<T>)
    ensures forall i, j :: 0 <= i < j < |Dedup(xs)| ==>
              FirstIndex(xs, Dedup(xs)[i]) < FirstIndex(xs, Dedup(xs)[j])
  {
    if xs != [] {
      var n := |xs| - 1;
      var p := xs[..n];
      var d := Dedup(p);
      var x := xs[n];
      DedupKeepsFirstOccurrenceOrder(p);
      forall y | y in d ensures FirstIndex(xs, y) == FirstIndex(p, y) && FirstIndex(xs, y) < n {
        FirstIndexInPrefix(xs, n, y);
      }
      if x !in d {
        assert x !in p;
        assert FirstIndex(xs, x) == n;
      }
    }
  }

  /** A sequence without repeats is its own de-duplication; in particular
      `Dedup` is idempotent. */
  lemma {:induction false} DedupOfNoDups<T(!new)>(xs: seq<T>)
    requires NoDups(xs)
    ensures Dedup(xs) == xs
  {
    if xs != [] {
      var p := xs[..|xs| - 1];
      assert NoDups(p);
      DedupOfNoDups(p);
      assert xs[|xs| - 1] !in p;
      assert p + [xs[|xs| - 1]] == xs;
    }
  }

  /** A sequence without repeats has as many elements as its set. */
  lemma {:induction false} NoDupsCardinality<T(!new)>(s: seq<T>)
    requires NoDups(s)
    ensures |Elems(s)| == |s|
  {
    if s != [] {
      var p := s[..|s| - 1];
      var x := s[|s| - 1];
      assert NoDups(p);
      NoDupsCardinality(p);
      assert s == p + [x];
      assert Elems(s) == Elems(p) + {x};
      assert x !in Elems(p);
    }
  }

  /** `Dedup` returns exactly one entry per distinct element. */
  lemma DedupLength<T(!new)>(xs: seq<T>)
    ensures |Dedup(xs)| == |Elems(xs)|
  {
    NoDupsCardinality(Dedup(xs));
    assert Elems(Dedup(xs)) == Elems(xs);
  }

  /** Appending only elements already present changes nothing. */
  lemma {:induction false} DedupAppendSeen<T(!new)>(xs: seq<T>, ys: seq<T>)
    requires forall y :: y in ys ==> y in xs
    ensures Dedup(xs + ys) == Dedup(xs)
    decreases |ys|
  {
    if ys == [] {
      assert xs + ys == xs;
    } else {
      var n := |ys| - 1;
      assert (xs + ys)[..|xs + ys| - 1] == xs + ys[..n];
      DedupAppendSeen(xs, ys[..n]);
      assert ys[n] in ys;
    }
  }

  /** Concatenation of a list of lists, `[item for sub in xss for item in sub]`. */
  function Flatten<T>(xss: seq<seq<T>>): (r: seq<T>)
    ensures forall k :: 0 <= k < |xss| ==> forall x :: x in xss[k] ==> x in r
    ensures forall x :: x in r ==> exists k :: 0 <= k < |xss| && x in xss[k]
  {
    if xss == [] then [] else xss[0] + Flatten(xss[1..])
  }

  lemma FlattenAppend<T>(xss: seq<seq<T>>, ys: seq<T>)
    ensures Flatten(xss + [ys]) == Flatten(xss) + ys
  {
    if xss != [] {
      assert (xss + [ys])[1..] == xss[1..] + [ys];
      FlattenAppend(xss[1..], ys);
    }
  }
}
