/** Generic sequence operations behind the dataframe calls of the scripts:
    first-occurrence de-duplication (`duplicated` / `drop_duplicates`),
    boolean-mask filtering, concatenation (`pd.concat`) and per-group sums
    (`groupby(...).sum()`). Sequences are built from the back, the way the
    scripts append one row, chunk or file at a time. */
module Seqs {

  predicate NoDuplicates<T(==)>(s: seq<T>) {
    forall i, j :: 0 <= i < j < |s| ==> s[i] != s[j]
  }

  /** `r` can be obtained from `s` by deleting elements. */
  predicate IsSubsequence<T(==)>(r: seq<T>, s: seq<T>)
    decreases |s|
  {
    if r == [] then true
    else if s == [] then false
    else (r[|r| - 1] == s[|s| - 1] && IsSubsequence(r[..|r| - 1], s[..|s| - 1]))
         || IsSubsequence(r, s[..|s| - 1])
  }

  function Map<T, U>(s: seq<T>, f: T -> U): (r: seq<U>)
    ensures |r| == |s|
    ensures forall i :: 0 <= i < |s| ==> r[i] == f(s[i])
  {
    seq(|s|, i requires 0 <= i < |s| => f(s[i]))
  }

  /** Index of the first occurrence of `x` in `s`. */
  function FirstIndex<T(==)>(s: seq<T>, x: T): (i: nat)
    requires x in s
    ensures i < |s| && s[i] == x && x !in s[..i]
  {
    if s[0] == x then 0
    else
      var j := FirstIndex(s[1..], x);
      assert s[..j + 1] == [s[0]] + s[1..][..j];
      1 + j
  }

  /** Keeps the first occurrence of every element, in order: pandas
      `drop_duplicates()` with its default `keep='first'`. */
  function Distinct<T(==,!new)>(s: seq<T>): (r: seq<T>)
    ensures NoDuplicates(r)
    ensures forall x :: x in r <==> x in s
    ensures |r| <= |s|
  {
    if s == [] then []
    else
      var p := Distinct(s[..|s| - 1]);
      if s[|s| - 1] in s[..|s| - 1] then p else p + [s[|s| - 1]]
  }

  /** pandas `duplicated().sum()`: the number of positions holding an element
      that already occurred at an earlier position. */
  function DuplicateCount<T(==)>(s: seq<T>): (n: nat)
    ensures n == 0 <==> NoDuplicates(s)
    ensures s != [] ==> n < |s|
  {
    NoDuplicatesIffNoneRepeated(s);
    RepeatedPositionsBound(s);
    |RepeatedPositions(s)|
  }

  /** pandas `duplicated()` as the set of positions it marks. */
  function RepeatedPositions<T(==)>(s: seq<T>): set<nat> {
    set i: nat | i < |s| && s[i] in s[..i]
  }

  function Filter<T(!new)>(s: seq<T>, p: T -> bool): (r: seq<T>)
    ensures |r| <= |s|
    ensures forall x :: x in r <==> x in s && p(x)
    ensures forall x :: multiset(r)[x] == if p(x) then multiset(s)[x] else 0
    ensures IsSubsequence(r, s)
  {
    if s == [] then []
    else
      var q := Filter(s[..|s| - 1], p);
      assert s == s[..|s| - 1] + [s[|s| - 1]];
      if p(s[|s| - 1]) then
        assert (q + [s[|s| - 1]])[..|q|] == q;
        q + [s[|s| - 1]]
      else q
  }

  /** `pd.concat` of a list of frames, in list order. */
  function Concat<T>(ss: seq<seq<T>>): (r: seq<T>)
  {
    if ss == [] then [] else Concat(ss[..|ss| - 1]) + ss[|ss| - 1]
  }

  /** Sum of `val` over the elements of `s`. */
  function Total<T>(s: seq<T>, val: T -> int): int {
    if s == [] then 0 else Total(s[..|s| - 1], val) + val(s[|s| - 1])
  }

  /** Sum of `val` over the elements of `s` whose key is `k`: one group of
      `groupby(key)[val].sum()`. */
  function SumWhere<T, K(==)>(s: seq<T>, key: T -> K, val: T -> int, k: K): int {
    if s == [] then 0
    else SumWhere(s[..|s| - 1], key, val, k) + (if key(s[|s| - 1]) == k then val(s[|s| - 1]) else 0)
  }

  /** The group sums of `s` for the keys `ks`, added up. */
  function SumOver<T, K(==)>(s: seq<T>, key: T -> K, val: T -> int, ks: seq<K>): int {
    if ks == [] then 0 else SumOver(s, key, val, ks[..|ks| - 1]) + SumWhere(s, key, val, ks[|ks| - 1])
  }

  // ---------------------------------------------------------------------------
  // De-duplication

  lemma {:induction false} DistinctOfDistinctElements<T(!new)>(s: seq<T>)
    requires NoDuplicates(s)
    ensures Distinct(s) == s
  {
    if s != [] {
      var init := s[..|s| - 1];
      assert NoDuplicates(init);
      DistinctOfDistinctElements(init);
      assert s == init + [s[|s| - 1]];
    }
  }

  lemma DuplicatePositionsStep<T>(s: seq<T>)
    requires s != []
    ensures RepeatedPositions(s)
         == RepeatedPositions(s[..|s| - 1]) + (if s[|s| - 1] in s[..|s| - 1] then {|s| - 1} else {})
  {
    var init := s[..|s| - 1];
    forall i | 0 <= i < |s| - 1 ensures s[i] == init[i] && s[..i] == init[..i] { }
  }

  /** The reported number of exact duplicates is the number of rows that
      `drop_duplicates` removes. */
  lemma {:induction false} DistinctSize<T(!new)>(s: seq<T>)
    ensures |Distinct(s)| + DuplicateCount(s) == |s|
  {
    if s != [] {
      var init := s[..|s| - 1];
      DistinctSize(init);
      DuplicatePositionsStep(s);
      assert |s| - 1 !in RepeatedPositions(init);
    }
  }

  /** The first position is never marked, so fewer positions are marked
      than there are. */
  lemma {:induction false} RepeatedPositionsBound<T>(s: seq<T>)
    ensures s != [] ==> |RepeatedPositions(s)| < |s|
  {
    if |s| == 1 {
      assert s[..0] == [];
      assert RepeatedPositions(s) == {};
    } else if s != [] {
      RepeatedPositionsBound(s[..|s| - 1]);
      DuplicatePositionsStep(s);
    }
  }

  lemma NoDuplicatesIffNoneRepeated<T>(s: seq<T>)
    ensures NoDuplicates(s) <==> RepeatedPositions(s) == {}
  {
    if NoDuplicates(s) {
      assert RepeatedPositions(s) == {};
    } else {
      var i, j :| 0 <= i < j < |s| && s[i] == s[j];
      assert s[..j][i] == s[j];
      assert j in RepeatedPositions(s);
    }
  }

  lemma FirstIndexOfEarlier<T>(s: seq<T>, x: T)
    requires s != [] && x in s[..|s| - 1]
    ensures FirstIndex(s, x) == FirstIndex(s[..|s| - 1], x)
  {
    var init := s[..|s| - 1];
    var a, b := FirstIndex(s, x), FirstIndex(init, x);
    assert s[..b] == init[..b];
  }

  lemma FirstIndexOfNew<T>(s: seq<T>)
    requires s != [] && s[|s| - 1] !in s[..|s| - 1]
    ensures FirstIndex(s, s[|s| - 1]) == |s| - 1
  {
    var a := FirstIndex(s, s[|s| - 1]);
  }

  /** `drop_duplicates` keeps the FIRST occurrence of every row and keeps the
      survivors in the order of those first occurrences. Together with
      `Distinct`'s own contract this determines its result completely. */
  lemma {:induction false} DistinctInFirstOccurrenceOrder<T(!new)>(s: seq<T>)
    ensures forall i, j :: 0 <= i < j < |Distinct(s)| ==>
              FirstIndex(s, Distinct(s)[i]) < FirstIndex(s, Distinct(s)[j])
  {
    if s != [] {
      var init := s[..|s| - 1];
      var last := s[|s| - 1];
      var p := Distinct(init);
      DistinctInFirstOccurrenceOrder(init);
      forall y | y in p ensures FirstIndex(s, y) == FirstIndex(init, y) {
        FirstIndexOfEarlier(s, y);
      }
      if last !in init {
        FirstIndexOfNew(s);
        assert Distinct(s) == p + [last];
      }
    }
  }

  // ---------------------------------------------------------------------------
  // Subsequences and filtering

  lemma {:induction false} SubsequenceTransitive<T>(a: seq<T>, b: seq<T>, c: seq<T>)
    requires IsSubsequence(a, b) && IsSubsequence(b, c)
    ensures IsSubsequence(a, c)
    decreases |c|
  {
    if a == [] || c == [] {
    } else if b == [] {
    } else if b[|b| - 1] == c[|c| - 1] && IsSubsequence(b[..|b| - 1], c[..|c| - 1]) {
      if a[|a| - 1] == b[|b| - 1] && IsSubsequence(a[..|a| - 1], b[..|b| - 1]) {
        SubsequenceTransitive(a[..|a| - 1], b[..|b| - 1], c[..|c| - 1]);
      } else {
        SubsequenceTransitive(a, b[..|b| - 1], c[..|c| - 1]);
      }
    } else {
      SubsequenceTransitive(a, b, c[..|c| - 1]);
    }
  }

  lemma {:induction false} SubsequenceReflexive<T>(s: seq<T>)
    ensures IsSubsequence(s, s)
  {
    if s != [] {
      SubsequenceReflexive(s[..|s| - 1]);
    }
  }

  /** Filtering a sequence all of whose elements pass changes nothing. */
  lemma {:induction false} FilterKeepsAll<T(!new)>(s: seq<T>, p: T -> bool)
    requires forall i :: 0 <= i < |s| ==> p(s[i])
    ensures Filter(s, p) == s
  {
    if s != [] {
      var init, last := s[..|s| - 1], s[|s| - 1];
      assert s == init + [last];
      assert forall i :: 0 <= i < |init| ==> p(init[i]) by {
        forall i | 0 <= i < |init| ensures p(init[i]) { assert init[i] == s[i]; }
      }
      KeptPrefix(s, p);
      FilterKeepsAll(init, p);
    }
  }

  lemma KeptPrefix<T(!new)>(s: seq<T>, p: T -> bool)
    requires s != [] && p(s[|s| - 1])
    ensures Filter(s, p) == Filter(s[..|s| - 1], p) + [s[|s| - 1]]
  {
  }

  /** Filtering distributes over concatenation: a file filtered chunk by
      chunk gives the rows of the whole file filtered at once. */
  lemma {:induction false} FilterAppend<T(!new)>(a: seq<T>, b: seq<T>, p: T -> bool)
    ensures Filter(a + b, p) == Filter(a, p) + Filter(b, p)
    decreases |b|
  {
    if b != [] {
      var b' := b[..|b| - 1];
      assert (a + b)[..|a + b| - 1] == a + b';
      FilterAppend(a, b', p);
    } else {
      assert a + b == a;
    }
  }

  /** A sum of values none of which is negative is not negative. */
  lemma {:induction false} TotalNonNegative<T>(s: seq<T>, val: T -> int)
    requires forall i :: 0 <= i < |s| ==> val(s[i]) >= 0
    ensures Total(s, val) >= 0
  {
    if s != [] {
      TotalNonNegative(s[..|s| - 1], val);
    }
  }

  lemma ConcatAppend<T>(ss: seq<seq<T>>, t: seq<T>)
    ensures Concat(ss + [t]) == Concat(ss) + t
  {
    assert (ss + [t])[..|ss|] == ss;
  }

  // ---------------------------------------------------------------------------
  // Group sums

  lemma {:induction false} SumOverNothing<T, K>(key: T -> K, val: T -> int, ks: seq<K>)
    ensures SumOver([], key, val, ks) == 0
  {
    if ks != [] {
      SumOverNothing(key, val, ks[..|ks| - 1]);
    }
  }

  /** Adding one element to `s` adds its value to exactly one group of a
      duplicate-free key list, if its key is listed at all. */
  lemma {:induction false} SumOverStep<T, K>(s: seq<T>, key: T -> K, val: T -> int, ks: seq<K>)
    requires s != [] && NoDuplicates(ks)
    ensures SumOver(s, key, val, ks)
         == SumOver(s[..|s| - 1], key, val, ks) + (if key(s[|s| - 1]) in ks then val(s[|s| - 1]) else 0)
  {
    if ks != [] {
      var init := ks[..|ks| - 1];
      assert NoDuplicates(init);
      SumOverStep(s, key, val, init);
      assert ks == init + [ks[|ks| - 1]];
      assert key(s[|s| - 1]) in ks <==> key(s[|s| - 1]) in init || key(s[|s| - 1]) == ks[|ks| - 1];
    }
  }

  /** Conservation: summing per group over a duplicate-free list that covers
      every key gives the plain total. No value is lost or counted twice. */
  lemma {:induction false} GroupSumsAddUp<T, K>(s: seq<T>, key: T -> K, val: T -> int, ks: seq<K>)
    requires NoDuplicates(ks)
    requires forall i :: 0 <= i < |s| ==> key(s[i]) in ks
    ensures SumOver(s, key, val, ks) == Total(s, val)
  {
    if s == [] {
      SumOverNothing(key, val, ks);
    } else {
      GroupSumsAddUp(s[..|s| - 1], key, val, ks);
      SumOverStep(s, key, val, ks);
    }
  }

  /** A table of per-key results, one per key of `ks`, adds up to the group
      sums over `ks`. */
  lemma {:induction false} TotalOfGroupRows<T, K, R>(r: seq<R>, rval: R -> int, s: seq<T>, key: T -> K, val: T -> int, ks: seq<K>)
    requires |r| == |ks|
    requires forall i :: 0 <= i < |r| ==> rval(r[i]) == SumWhere(s, key, val, ks[i])
    ensures Total(r, rval) == SumOver(s, key, val, ks)
  {
    if r != [] {
      TotalOfGroupRows(r[..|r| - 1], rval, s, key, val, ks[..|ks| - 1]);
    }
  }

  /** The group of a key that occurs once sums to that element's value. */
  lemma {:induction false} SumWhereOfUniqueKey<T, K>(s: seq<T>, key: T -> K, val: T -> int, i: nat)
    requires i < |s|
    requires forall j :: 0 <= j < |s| && j != i ==> key(s[j]) != key(s[i])
    ensures SumWhere(s, key, val, key(s[i])) == val(s[i])
  {
    var init := s[..|s| - 1];
    if i == |s| - 1 {
      SumWhereAbsent(init, key, val, key(s[i]));
    } else {
      SumWhereOfUniqueKey(init, key, val, i);
    }
  }

  lemma {:induction false} SumWhereAbsent<T, K>(s: seq<T>, key: T -> K, val: T -> int, k: K)
    requires forall j :: 0 <= j < |s| ==> key(s[j]) != k
    ensures SumWhere(s, key, val, k) == 0
  {
    if s != [] {
      SumWhereAbsent(s[..|s| - 1], key, val, k);
    }
  }
}
