/** Sorting by a strict order, as `sort.Slice` does it: what the result is,
    and that nothing else could have been the result. */
module Ranking {

  ghost predicate StrictOrder<T(!new)>(less: (T, T) -> bool)
  {
    && (forall x :: !less(x, x))
    && (forall x, y, z :: less(x, y) && less(y, z) ==> less(x, z))
  }

  /** Any two positions hold elements that `less` tells apart. */
  ghost predicate Comparable<T>(less: (T, T) -> bool, s: seq<T>)
  {
    forall i, j | 0 <= i < j < |s| :: less(s[i], s[j]) || less(s[j], s[i])
  }

  ghost predicate Ranked<T>(less: (T, T) -> bool, s: seq<T>)
  {
    forall i, j | 0 <= i < j < |s| :: less(s[i], s[j])
  }

  function Insert<T>(less: (T, T) -> bool, x: T, s: seq<T>): seq<T>
  {
    if s == [] || less(x, s[0]) then [x] + s else [s[0]] + Insert(less, x, s[1..])
  }

  function Sort<T>(less: (T, T) -> bool, s: seq<T>): seq<T>
  {
    if s == [] then [] else Insert(less, s[0], Sort(less, s[1..]))
  }

  lemma {:induction false} InsertPermutes<T>(less: (T, T) -> bool, x: T, s: seq<T>)
    ensures multiset(Insert(less, x, s)) == multiset{x} + multiset(s)
  {
    if s != [] && !less(x, s[0]) {
      InsertPermutes(less, x, s[1..]);
      assert s == [s[0]] + s[1..];
    }
  }

  /** Sorting only reorders, whatever the order. */
  lemma {:induction false} SortPermutes<T>(less: (T, T) -> bool, s: seq<T>)
    ensures multiset(Sort(less, s)) == multiset(s)
  {
    if s != [] {
      SortPermutes(less, s[1..]);
      InsertPermutes(less, s[0], Sort(less, s[1..]));
      assert s == [s[0]] + s[1..];
    }
  }

  lemma SameMembers<T>(a: seq<T>, b: seq<T>)
    requires multiset(a) == multiset(b)
    ensures |a| == |b| && forall x :: x in a <==> x in b
  {
    assert |a| == |multiset(a)| && |b| == |multiset(b)|;
    forall x ensures x in a <==> x in b {
      assert x in a <==> x in multiset(a);
      assert x in b <==> x in multiset(b);
    }
  }

  lemma {:induction false} InsertRanked<T(!new)>(less: (T, T) -> bool, x: T, s: seq<T>)
    requires StrictOrder(less) && Ranked(less, s)
    requires forall y | y in s :: less(x, y) || less(y, x)
    ensures Ranked(less, Insert(less, x, s))
  {
    if s != [] && !less(x, s[0]) {
      InsertRanked(less, x, s[1..]);
      var rest := Insert(less, x, s[1..]);
      InsertPermutes(less, x, s[1..]);
      SameMembers(rest, [x] + s[1..]);
      assert less(s[0], x);
      forall i | 0 <= i < |rest| ensures less(s[0], rest[i]) {
        assert rest[i] in [x] + s[1..];
        assert rest[i] == x || rest[i] in s[1..];
      }
    }
  }

  /** Sorting distinguishable elements gives a ranked permutation of them. */
  lemma {:induction false} SortRanked<T(!new)>(less: (T, T) -> bool, s: seq<T>)
    requires StrictOrder(less) && Comparable(less, s)
    ensures Ranked(less, Sort(less, s))
    ensures |Sort(less, s)| == |s| && forall x :: x in Sort(less, s) <==> x in s
  {
    SortPermutes(less, s);
    SameMembers(Sort(less, s), s);
    if s != [] {
      SortRanked(less, s[1..]);
      forall y | y in Sort(less, s[1..]) ensures less(s[0], y) || less(y, s[0]) {
        assert y in s[1..];
      }
      InsertRanked(less, s[0], Sort(less, s[1..]));
    }
  }

  lemma HasMember<T>(s: seq<T>)
    ensures s != [] ==> exists x :: x in s
  {
    if s != [] { assert s[0] in s; }
  }

  /** A ranked sequence is determined by its members, so every correct sort
      of distinguishable elements returns the same sequence. */
  lemma {:induction false} RankedUnique<T(!new)>(less: (T, T) -> bool, a: seq<T>, b: seq<T>)
    requires StrictOrder(less) && Ranked(less, a) && Ranked(less, b)
    requires forall x :: x in a <==> x in b
    ensures a == b
  {
    HasMember(a);
    HasMember(b);
    if a != [] {
      assert a[0] in b && b[0] in b;
      assert b[0] in a;
      assert a[0] == b[0];
      forall x ensures x in a[1..] <==> x in b[1..] {
        if x in a[1..] { assert x in b && x != b[0]; }
        if x in b[1..] { assert x in a && x != a[0]; }
      }
      RankedUnique(less, a[1..], b[1..]);
      assert a == [a[0]] + a[1..] && b == [b[0]] + b[1..];
    }
  }

  /** Ranked sequences have no repetitions. */
  lemma RankedNoDup<T(!new)>(less: (T, T) -> bool, s: seq<T>)
    requires StrictOrder(less) && Ranked(less, s)
    ensures forall i, j | 0 <= i < j < |s| :: s[i] != s[j]
  {}

  // ---------------------------------------------------------------- positions

  ghost predicate Distinct<T>(s: seq<T>)
  {
    forall i, j | 0 <= i < j < |s| :: s[i] != s[j]
  }

  ghost function Members<T(!new)>(s: seq<T>): set<T>
  {
    set x | x in s
  }

  lemma {:induction false} DistinctCount<T(!new)>(s: seq<T>)
    requires Distinct(s)
    ensures |Members(s)| == |s|
  {
    if s != [] {
      var n := |s| - 1;
      DistinctCount(s[..n]);
      assert s == s[..n] + [s[n]];
      assert Members(s) == Members(s[..n]) + {s[n]};
    }
  }

  /** Distinct elements of a sequence are no more than it is long. */
  lemma DistinctFits<T(!new)>(a: seq<T>, b: seq<T>)
    requires Distinct(a) && Distinct(b) && forall x | x in a :: x in b
    ensures |a| <= |b|
  {
    DistinctCount(a);
    DistinctCount(b);
    SubsetCount(Members(a), Members(b));
  }

  lemma {:induction false} SubsetCount<T>(a: set<T>, b: set<T>)
    requires a <= b
    ensures |a| <= |b|
    decreases a
  {
    if x :| x in a {
      SubsetCount(a - {x}, b - {x});
    }
  }

  /** What ranks before position k is what stands before it. */
  lemma BeforePosition<T(!new)>(less: (T, T) -> bool, s: seq<T>, k: nat, x: T)
    requires StrictOrder(less) && Ranked(less, s) && k < |s|
    ensures x in s[..k] <==> x in s && less(x, s[k])
  {
    if x in s && less(x, s[k]) {
      var i :| 0 <= i < |s| && s[i] == x;
      assert i < k;
      assert s[..k][i] == x;
    }
  }

  /** Elements of b before e that a does not have. */
  ghost function Added<T(!new)>(less: (T, T) -> bool, a: seq<T>, b: seq<T>, e: T): set<T>
  {
    set x | x in b && x !in a && less(x, e)
  }

  ghost function Common<T(!new)>(less: (T, T) -> bool, a: seq<T>, b: seq<T>, e: T): set<T>
  {
    set x | x in a && x in b && less(x, e)
  }

  /** A position counts what the other sequence has before it, and what not. */
  lemma PositionCounts<T(!new)>(less: (T, T) -> bool, a: seq<T>, b: seq<T>, k: nat)
    requires StrictOrder(less) && Ranked(less, b) && k < |b|
    ensures k == |Common(less, a, b, b[k])| + |Added(less, a, b, b[k])|
  {
    hide StrictOrder;
    var c, n := Common(less, a, b, b[k]), Added(less, a, b, b[k]);
    forall x ensures x in Members(b[..k]) <==> x in c + n { BeforePosition(less, b, k, x); }
    assert Members(b[..k]) == c + n;
    RankedNoDup(less, b);
    DistinctCount(b[..k]);
  }

  /** An element common to two ranked sequences stands further on in the second
      by what was added before it, less what was removed before it. */
  lemma PositionShifts<T(!new)>(less: (T, T) -> bool, a: seq<T>, b: seq<T>, i: nat, k: nat)
    requires StrictOrder(less) && Ranked(less, a) && Ranked(less, b)
    requires i < |a| && k < |b| && a[i] == b[k]
    ensures k == i + |Added(less, a, b, a[i])| - |Added(less, b, a, a[i])|
  {
    hide StrictOrder, Ranked, Added;
    PositionCounts(less, a, b, k);
    PositionCounts(less, b, a, i);
    assert Common(less, a, b, a[i]) == Common(less, b, a, a[i]);
  }

  /** Ties allowed: elements neither of which is less are interchangeable. */
  ghost predicate WeakOrder<T(!new)>(less: (T, T) -> bool)
  {
    && StrictOrder(less)
    && (forall x, y, z :: !less(x, y) && !less(y, z) ==> !less(x, z))
  }

  ghost predicate Sorted<T>(less: (T, T) -> bool, s: seq<T>)
  {
    forall i, j | 0 <= i < j < |s| :: !less(s[j], s[i])
  }

  lemma {:induction false} InsertSorted<T(!new)>(less: (T, T) -> bool, x: T, s: seq<T>)
    requires WeakOrder(less) && Sorted(less, s)
    ensures Sorted(less, Insert(less, x, s))
  {
    if s != [] && !less(x, s[0]) {
      InsertSorted(less, x, s[1..]);
      var rest := Insert(less, x, s[1..]);
      InsertPermutes(less, x, s[1..]);
      SameMembers(rest, [x] + s[1..]);
      forall y | y in rest ensures !less(y, s[0]) {
        assert y in [x] + s[1..];
      }
    } else if s != [] {
      forall y | y in s ensures !less(y, x) {
        assert !less(y, s[0]);
      }
    }
  }

  /** Sorting by a weak order leaves no inversion. */
  lemma {:induction false} SortSorted<T(!new)>(less: (T, T) -> bool, s: seq<T>)
    requires WeakOrder(less)
    ensures Sorted(less, Sort(less, s)) && |Sort(less, s)| == |s| && forall x :: x in Sort(less, s) <==> x in s
  {
    SortPermutes(less, s);
    SameMembers(Sort(less, s), s);
    if s != [] {
      SortSorted(less, s[1..]);
      InsertSorted(less, s[0], Sort(less, s[1..]));
    }
  }
}
