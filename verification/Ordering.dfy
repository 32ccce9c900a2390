// Strictly sorted sequences over an arbitrary strict total order, and the orders used here.
module Ordering {

  ghost predicate StrictTotal<T(!new)>(less: (T, T) -> bool) {
    && (forall x :: !less(x, x))
    && (forall x, y :: less(x, y) || less(y, x) || x == y)
    && (forall x, y, z :: less(x, y) && less(y, z) ==> less(x, z))
  }

  predicate Sorted<T>(s: seq<T>, less: (T, T) -> bool) {
    forall i, j :: 0 <= i < j < |s| ==> less(s[i], s[j])
  }

  // Puts `x` at its place, or leaves the sequence as it is when `x` is there already.
  function Insert<T(==)>(x: T, s: seq<T>, less: (T, T) -> bool): seq<T> {
    if s == [] then [x]
    else if x == s[0] then s
    else if less(x, s[0]) then [x] + s
    else [s[0]] + Insert(x, s[1..], less)
  }

  function SortUnique<T(==)>(s: seq<T>, less: (T, T) -> bool): seq<T> {
    if s == [] then [] else Insert(s[|s| - 1], SortUnique(s[..|s| - 1], less), less)
  }

  lemma {:induction false} InsertFacts<T(!new)>(x: T, s: seq<T>, less: (T, T) -> bool)
    requires StrictTotal(less) && Sorted(s, less)
    ensures Sorted(Insert(x, s, less), less)
    ensures forall y :: y in Insert(x, s, less) <==> y == x || y in s
    ensures |Insert(x, s, less)| == |s| + (if x in s then 0 else 1)
  {
    if s != [] && x != s[0] && !less(x, s[0]) {
      InsertFacts(x, s[1..], less);
      var rest := Insert(x, s[1..], less);
      assert s == [s[0]] + s[1..];
      forall j | 0 <= j < |rest| ensures less(s[0], rest[j]) {
        assert rest[j] in rest;
      }
    } else if s != [] && x != s[0] {
      forall j | 0 <= j < |s| ensures s[j] != x {
        if j > 0 { assert less(s[0], s[j]); }
      }
    }
  }

  lemma {:induction false} SortUniqueFacts<T(!new)>(s: seq<T>, less: (T, T) -> bool)
    requires StrictTotal(less)
    ensures Sorted(SortUnique(s, less), less)
    ensures forall y :: y in SortUnique(s, less) <==> y in s
  {
    if s == [] {
    } else {
      var front := s[..|s| - 1];
      SortUniqueFacts(front, less);
      InsertFacts(s[|s| - 1], SortUnique(front, less), less);
      assert s == front + [s[|s| - 1]];
    }
  }

  lemma HeadOnce<T(!new)>(s: seq<T>, less: (T, T) -> bool)
    requires StrictTotal(less) && Sorted(s, less) && s != []
    ensures s[0] !in s[1..]
  {
    forall j | 0 <= j < |s[1..]| ensures s[1..][j] != s[0] { assert less(s[0], s[j + 1]); }
  }

  // A strictly sorted sequence is determined by its elements.
  lemma {:induction false} SortedUnique<T(!new)>(a: seq<T>, b: seq<T>, less: (T, T) -> bool)
    requires StrictTotal(less) && Sorted(a, less) && Sorted(b, less)
    requires forall y :: y in a <==> y in b
    ensures a == b
  {
    assert b != [] ==> b[0] in b;
    if a == [] {
    } else {
      assert a[0] in a && a[0] in b;
      assert b[0] in b && b[0] in a;
      var i :| 0 <= i < |b| && b[i] == a[0];
      var j :| 0 <= j < |a| && a[j] == b[0];
      assert a[0] == b[0];
      HeadOnce(a, less);
      HeadOnce(b, less);
      assert a == [a[0]] + a[1..] && b == [b[0]] + b[1..];
      assert forall y :: y in a[1..] <==> y in a && y != a[0];
      assert forall y :: y in b[1..] <==> y in b && y != b[0];
      SortedUnique(a[1..], b[1..], less);
    }
  }

  lemma SortedIsSortUnique<T(!new)>(s: seq<T>, less: (T, T) -> bool)
    requires StrictTotal(less) && Sorted(s, less)
    ensures SortUnique(s, less) == s
  {
    SortUniqueFacts(s, less);
    SortedUnique(SortUnique(s, less), s, less);
  }

  // Lexicographic order of number sequences, the order of byte strings.
  predicate SeqLess(a: seq<int>, b: seq<int>) {
    if b == [] then false
    else if a == [] then true
    else a[0] < b[0] || (a[0] == b[0] && SeqLess(a[1..], b[1..]))
  }

  lemma {:induction false} SeqLessIrreflexive(a: seq<int>)
    ensures !SeqLess(a, a)
  {
    if a == [] {
    } else {
      SeqLessIrreflexive(a[1..]);
    }
  }

  lemma {:induction false} SeqLessConnected(a: seq<int>, b: seq<int>)
    ensures SeqLess(a, b) || SeqLess(b, a) || a == b
  {
    if a != [] && b != [] {
      SeqLessConnected(a[1..], b[1..]);
      if a[0] == b[0] && a[1..] == b[1..] { assert a == [a[0]] + a[1..] && b == [b[0]] + b[1..]; }
    }
  }

  lemma {:induction false} SeqLessTransitive(a: seq<int>, b: seq<int>, c: seq<int>)
    requires SeqLess(a, b) && SeqLess(b, c)
    ensures SeqLess(a, c)
  {
    if a != [] && a[0] == b[0] == c[0] { SeqLessTransitive(a[1..], b[1..], c[1..]); }
  }
}
