/** Stable sorting and the removal of neighbouring repeats, over any order. */
module Sorting {
  /** What a sort needs of an order: it never holds both ways, and being no less is transitive. */
  ghost predicate Ordering<T(!new)>(less: (T, T) -> bool) {
    && (forall a, b :: less(a, b) ==> !less(b, a))
    && (forall a, b, c :: !less(b, a) && !less(c, b) ==> !less(c, a))
  }

  /** Different items are never equal in the order. */
  ghost predicate Total<T(!new)>(less: (T, T) -> bool) {
    forall a, b :: a == b || less(a, b) || less(b, a)
  }

  predicate Sorted<T>(less: (T, T) -> bool, s: seq<T>) {
    forall i, j :: 0 <= i < j < |s| ==> !less(s[j], s[i])
  }

  function Insert<T>(less: (T, T) -> bool, x: T, s: seq<T>): seq<T> {
    if s == [] then [x] else if less(s[0], x) then [s[0]] + Insert(less, x, s[1..]) else [x] + s
  }

  /** `slice::sort`: equals keep their order. */
  function Sort<T>(less: (T, T) -> bool, s: seq<T>): seq<T> {
    if s == [] then [] else Insert(less, s[0], Sort(less, s[1..]))
  }

  /** `Vec::dedup`: of a run of equals the first stays. */
  function Dedup<T(==)>(s: seq<T>): seq<T> {
    if |s| < 2 then s else if s[0] == s[1] then Dedup(s[1..]) else [s[0]] + Dedup(s[1..])
  }

  predicate Distinct<T(==)>(s: seq<T>) {
    forall i, j :: 0 <= i < j < |s| ==> s[i] != s[j]
  }

  // ----- sorting -----

  lemma {:induction false} InsertPermutes<T>(less: (T, T) -> bool, x: T, s: seq<T>)
    ensures multiset(Insert(less, x, s)) == multiset{x} + multiset(s) && |Insert(less, x, s)| == |s| + 1
  {
    if s != [] {
      InsertPermutes(less, x, s[1..]);
      assert s == [s[0]] + s[1..];
    }
  }

  lemma {:induction false} Lowest<T(!new)>(less: (T, T) -> bool, first: T, s: seq<T>)
    requires Sorted(less, s) && forall i :: 0 <= i < |s| ==> !less(s[i], first)
    ensures Sorted(less, [first] + s)
  {
  }

  lemma {:induction false} InsertSorts<T(!new)>(less: (T, T) -> bool, x: T, s: seq<T>)
    requires Ordering(less) && Sorted(less, s)
    ensures Sorted(less, Insert(less, x, s))
  {
    if s != [] {
      if less(s[0], x) {
        var tail := Insert(less, x, s[1..]);
        InsertSorts(less, x, s[1..]);
        InsertPermutes(less, x, s[1..]);
        forall j | 0 <= j < |tail|
          ensures !less(tail[j], s[0])
        {
          assert tail[j] in multiset(tail);
          if tail[j] != x {
            assert tail[j] in s[1..];
          }
        }
        Lowest(less, s[0], tail);
      } else {
        forall j | 0 <= j < |s|
          ensures !less(s[j], x)
        {
          assert j > 0 ==> !less(s[j], s[0]);
        }
        Lowest(less, x, s);
      }
    }
  }

  lemma {:induction false} SortSorts<T(!new)>(less: (T, T) -> bool, s: seq<T>)
    requires Ordering(less)
    ensures Sorted(less, Sort(less, s))
  {
    if s != [] {
      SortSorts(less, s[1..]);
      InsertSorts(less, s[0], Sort(less, s[1..]));
    }
  }

  lemma {:induction false} SortPermutes<T>(less: (T, T) -> bool, s: seq<T>)
    ensures multiset(Sort(less, s)) == multiset(s) && |Sort(less, s)| == |s|
  {
    if s != [] {
      SortPermutes(less, s[1..]);
      InsertPermutes(less, s[0], Sort(less, s[1..]));
      assert s == [s[0]] + s[1..];
    }
  }

  /** A sorted list is left as it is. */
  lemma {:induction false} SortOfSorted<T>(less: (T, T) -> bool, s: seq<T>)
    requires Sorted(less, s)
    ensures Sort(less, s) == s
  {
    if s != [] {
      SortOfSorted(less, s[1..]);
      assert s == [s[0]] + s[1..];
      assert |s| > 1 ==> !less(s[1], s[0]);
    }
  }

  // ----- repeats -----

  lemma {:induction false} DedupShorter<T>(s: seq<T>)
    ensures |Dedup(s)| <= |s| && (s != [] ==> Dedup(s) != [] && Dedup(s)[0] == s[0])
    ensures forall x :: x in Dedup(s) <==> x in s
  {
    if |s| >= 2 {
      DedupShorter(s[1..]);
      assert s == [s[0]] + s[1..];
    }
  }

  /** The first of a sorted list does not come again unless it comes next. */
  lemma {:induction false} Unrepeated<T(!new)>(less: (T, T) -> bool, s: seq<T>)
    requires Ordering(less) && Total(less) && Sorted(less, s) && |s| >= 2 && s[0] != s[1]
    ensures forall j :: 0 < j < |s| ==> s[0] != s[j] && less(s[0], s[j])
  {
    assert less(s[0], s[1]) by {
      assert !less(s[1], s[0]);
    }
    forall j | 0 < j < |s|
      ensures less(s[0], s[j])
    {
      assert j > 1 ==> !less(s[j], s[1]);
    }
  }

  /** In a sorted list repeats are neighbours, so deduplication shortens it exactly when there is one. */
  lemma {:induction false} DedupFinds<T(!new)>(less: (T, T) -> bool, s: seq<T>)
    requires Ordering(less) && Total(less) && Sorted(less, s)
    ensures |Dedup(s)| == |s| <==> Distinct(s)
  {
    if |s| >= 2 {
      DedupFinds(less, s[1..]);
      DedupShorter(s[1..]);
      if s[0] != s[1] {
        Unrepeated(less, s);
        assert Distinct(s[1..]) ==> Distinct(s);
      }
      assert Distinct(s) ==> Distinct(s[1..]);
    }
  }

  lemma {:induction false} DistinctCounts<T(!new)>(s: seq<T>)
    ensures Distinct(s) <==> forall x :: x in s ==> multiset(s)[x] == 1
  {
    if s != [] {
      var front, last := s[..|s| - 1], s[|s| - 1];
      DistinctCounts(front);
      assert s == front + [last];
      assert multiset(s) == multiset(front) + multiset{last};
      if Distinct(s) {
        assert last !in front;
      } else if Distinct(front) {
        assert last in front;
        assert multiset(s)[last] >= 2;
      } else {
        var x :| x in front && multiset(front)[x] != 1;
        assert x in s && multiset(s)[x] >= 2;
      }
    }
  }

  /** Sorting and deduplicating finds a repeat anywhere in a list. */
  lemma {:induction false} DedupIsDistinct<T(!new)>(less: (T, T) -> bool, s: seq<T>)
    requires Ordering(less) && Total(less)
    ensures |Dedup(Sort(less, s))| == |Sort(less, s)| <==> Distinct(s)
  {
    var sorted := Sort(less, s);
    SortSorts(less, s);
    SortPermutes(less, s);
    DedupFinds(less, sorted);
    DistinctCounts(s);
    DistinctCounts(sorted);
    assert forall x :: x in s <==> x in multiset(s);
    assert forall x :: x in sorted <==> x in multiset(sorted);
  }

  /** What is left of a sorted list is sorted and has no neighbouring repeats to remove. */
  lemma {:induction false} DedupSettles<T(!new)>(less: (T, T) -> bool, s: seq<T>)
    requires Ordering(less) && Total(less) && Sorted(less, s)
    ensures Sorted(less, Dedup(s)) && Dedup(Dedup(s)) == Dedup(s)
  {
    if |s| >= 2 {
      var rest := Dedup(s[1..]);
      DedupSettles(less, s[1..]);
      DedupShorter(s[1..]);
      if s[0] != s[1] {
        Unrepeated(less, s);
        forall i | 0 <= i < |rest|
          ensures !less(rest[i], s[0])
        {
          assert rest[i] in s[1..];
        }
        Lowest(less, s[0], rest);
        assert ([s[0]] + rest)[1..] == rest;
      }
    }
  }

  // ----- lexicographic order -----

  predicate Lex<T(==)>(less: (T, T) -> bool, a: seq<T>, b: seq<T>) {
    b != [] && (a == [] || less(a[0], b[0]) || (a[0] == b[0] && Lex(less, a[1..], b[1..])))
  }

  function Lexicographic<T(==)>(less: (T, T) -> bool): (seq<T>, seq<T>) -> bool {
    (a, b) => Lex(less, a, b)
  }

  lemma {:induction false} LexTotal<T(!new)>(less: (T, T) -> bool, a: seq<T>, b: seq<T>)
    requires Ordering(less) && Total(less)
    ensures Lex(less, a, b) || a == b || Lex(less, b, a)
    ensures !(Lex(less, a, b) && Lex(less, b, a))
  {
    if a != [] && b != [] {
      LexTotal(less, a[1..], b[1..]);
      assert a == [a[0]] + a[1..] && b == [b[0]] + b[1..];
      assert a[0] == b[0] || less(a[0], b[0]) || less(b[0], a[0]);
    }
  }

  lemma {:induction false} Squeezed<T(!new)>(less: (T, T) -> bool, a: T, b: T)
    requires Total(less) && !less(a, b) && !less(b, a)
    ensures a == b
  {
  }

  lemma {:induction false} LexNotLess<T(!new)>(less: (T, T) -> bool, a: seq<T>, b: seq<T>, c: seq<T>)
    requires Ordering(less) && Total(less) && !Lex(less, b, a) && !Lex(less, c, b)
    ensures !Lex(less, c, a)
  {
    if a != [] && b != [] && c != [] {
      assert !less(b[0], a[0]) && !less(c[0], b[0]);
      assert !less(c[0], a[0]);
      if c[0] == a[0] {
        Squeezed(less, a[0], b[0]);
        LexNotLess(less, a[1..], b[1..], c[1..]);
      }
    }
  }

  lemma {:induction false} LexOrders<T(!new)>(less: (T, T) -> bool)
    requires Ordering(less) && Total(less)
    ensures Ordering(Lexicographic(less)) && Total(Lexicographic(less))
  {
    forall a: seq<T>, b: seq<T>
      ensures (Lex(less, a, b) || a == b || Lex(less, b, a)) && !(Lex(less, a, b) && Lex(less, b, a))
    {
      LexTotal(less, a, b);
    }
    forall a: seq<T>, b: seq<T>, c: seq<T> | !Lex(less, b, a) && !Lex(less, c, b)
      ensures !Lex(less, c, a)
    {
      LexNotLess(less, a, b, c);
    }
  }
}
